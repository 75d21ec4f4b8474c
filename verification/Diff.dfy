/** diff(): the compare table, a longest common sequence, and the aligned parts of both arrays. */
module Diff {
  import opened LcsSpec
  import DiffLongest
  import DiffDyn

  // ---- Compare table ----

  /** The positions in b[..n] that hold x, in order. */
  function Positions<T(==)>(b: seq<T>, n: nat, x: T): (r: seq<nat>)
    requires n <= |b|
    ensures Ascending(r)
    ensures forall k :: 0 <= k < |r| ==> r[k] < n
    ensures forall j :: j in r <==> 0 <= j < n && b[j] == x
  {
    if n == 0 then []
    else if b[n - 1] == x then Positions(b, n - 1, x) + [n - 1]
    else Positions(b, n - 1, x)
  }

  lemma {:induction false} NoPositions<T>(b: seq<T>, n: nat, x: T)
    requires n <= |b| && x !in b[..n]
    ensures Positions(b, n, x) == []
  {
    if n > 0 {
      assert b[..n] == b[..n - 1] + [b[n - 1]];
      NoPositions(b, n - 1, x);
    }
  }

  /** m maps each element of b[..n] to its positions. */
  ghost predicate Indexes<T(!new)>(m: map<T, seq<nat>>, b: seq<T>, n: nat)
    requires n <= |b|
  {
    && (forall x :: x in m <==> x in b[..n])
    && (forall x :: x in m ==> m[x] == Positions(b, n, x))
  }

  lemma IndexStep<T(!new)>(m: map<T, seq<nat>>, b: seq<T>, n: nat)
    requires n < |b| && Indexes(m, b, n)
    ensures Indexes(m[b[n] := (if b[n] in m then m[b[n]] else []) + [n]], b, n + 1)
  {
    assert b[..n + 1] == b[..n] + [b[n]];
    if b[n] !in m {
      NoPositions(b, n, b[n]);
    }
  }

  lemma TableFromPositions<T>(res: Table, a: seq<T>, b: seq<T>)
    requires |res| == |a| && forall k :: 0 <= k < |a| ==> res[k] == Positions(b, |b|, a[k])
    ensures IsTableOf(res, a, b)
  {
  }

  /** Positions of each element of b, and how many different elements there are. */
  method IndexPositions<T(==, !new)>(b: seq<T>) returns (m: map<T, seq<nat>>, uniq: nat)
    ensures Indexes(m, b, |b|) && uniq == |m|
  {
    hide Indexes;
    m, uniq := map[], 0;
    NothingIndexed(b);
    for i := 0 to |b|
      invariant Indexes(m, b, i) && uniq == |m|
    {
      IndexStep(m, b, i);
      if b[i] !in m {
        assert [] + [i] == [i];
        m := m[b[i] := [i]];
        uniq := uniq + 1;
      } else {
        m := m[b[i] := m[b[i]] + [i]];
      }
    }
  }

  lemma NothingIndexed<T(!new)>(b: seq<T>)
    ensures Indexes(map[], b, 0)
  {
  }

  lemma UniqueElements<T(!new)>(m: map<T, seq<nat>>, b: seq<T>)
    requires Indexes(m, b, |b|)
    ensures |m| == |set x | x in b|
  {
    assert b[..|b|] == b;
    assert m.Keys == set x | x in b;
  }

  /** For each element of a, the positions in b of the elements equal to it; also the number of
      different elements in b. */
  method DiffCompareTable<T(==, !new)>(a: seq<T>, b: seq<T>) returns (res: Table, uniq: nat)
    ensures IsTableOf(res, a, b)
    ensures uniq == |set x | x in b|
  {
    hide Positions;
    hide IsTableOf;
    var m: map<T, seq<nat>>;
    m, uniq := IndexPositions(b);
    UniqueElements(m, b);
    res := [];
    for i := 0 to |a|
      invariant |res| == i
      invariant forall k :: 0 <= k < i ==> res[k] == Positions(b, |b|, a[k])
    {
      if a[i] !in m {
        NoPositions(b, |b|, a[i]);
        res := res + [[]];
      } else {
        res := res + [m[a[i]]];
      }
    }
    TableFromPositions(res, a, b);
  }

  // ---- Aligned parts ----

  function Concat<T>(parts: seq<seq<T>>): seq<T> {
    if parts == [] then [] else Concat(parts[..|parts| - 1]) + parts[|parts| - 1]
  }

  /** Number of elements in aligned parts that are equal on both sides. */
  function CommonLen<T(==)>(ad: seq<seq<T>>, bd: seq<seq<T>>): nat
    requires |ad| == |bd|
  {
    if ad == [] then 0
    else
      var n := |ad| - 1;
      CommonLen(ad[..n], bd[..n]) + if ad[n] == bd[n] then |ad[n]| else 0
  }

  lemma ConcatPush<T>(parts: seq<seq<T>>, p: seq<T>)
    ensures Concat(parts + [p]) == Concat(parts) + p
  {
    assert (parts + [p])[..|parts|] == parts;
  }

  /** The positions n, n+1, ... of a run of len elements. */
  function Run(n: nat, len: nat): (r: seq<nat>)
    ensures |r| == len && forall k :: 0 <= k < len ==> r[k] == n + k
  {
    seq(len, k => n + k)
  }

  lemma AlignedRun<T>(a: seq<T>, b: seq<T>, s: seq<nat>, p: seq<nat>, e: seq<T>)
    requires Aligned(a, b, s, p)
    ensures Aligned(a + e, b + e, s + Run(|b|, |e|), p + Run(|a|, |e|))
  {
  }

  lemma AlignedGap<T>(a: seq<T>, b: seq<T>, s: seq<nat>, p: seq<nat>, x: seq<T>, y: seq<T>)
    requires Aligned(a, b, s, p)
    ensures Aligned(a + x, b + y, s, p)
  {
  }

  lemma AlignedOne<T>(a: seq<T>, b: seq<T>, s: seq<nat>, p: seq<nat>, x: seq<T>, y: seq<T>, u: nat, v: nat)
    requires Aligned(a, b, s, p) && u < |x| && v < |y| && x[u] == y[v]
    ensures Aligned(a + x, b + y, s + [|b| + v], p + [|a| + u])
  {
    assert (a + x)[|a| + u] == x[u] && (b + y)[|b| + v] == y[v];
  }

  /** The equal parts spell out a common sequence of the two arrays. */
  lemma {:induction false} PartsAreCommon<T>(ad: seq<seq<T>>, bd: seq<seq<T>>) returns (s: seq<nat>, p: seq<nat>)
    requires |ad| == |bd|
    ensures Aligned(Concat(ad), Concat(bd), s, p) && |s| == CommonLen(ad, bd)
    decreases |ad|
  {
    hide Aligned;
    if ad == [] {
      s, p := [], [];
      NothingAligned<T>();
    } else {
      var n := |ad| - 1;
      s, p := PartsAreCommon(ad[..n], bd[..n]);
      var x, y := Concat(ad[..n]), Concat(bd[..n]);
      if ad[n] == bd[n] {
        AlignedRun(x, y, s, p, ad[n]);
        s, p := s + Run(|y|, |ad[n]|), p + Run(|x|, |ad[n]|);
      } else {
        AlignedGap(x, y, s, p, ad[n], bd[n]);
      }
    }
  }

  lemma NothingAligned<T>()
    ensures Aligned<T>([], [], [], [])
  {
  }

  /** The rest of s still embeds in the part of a from position `from` on. */
  ghost predicate EmbedsFrom<T>(a: seq<T>, b: seq<T>, s: seq<nat>, from: nat) {
    exists p :: Aligned(a, b, s, p) && (p != [] ==> from <= p[0])
  }

  /** Index of the first x in a from start on, or -1. */
  method ArraySearch<T(==)>(a: seq<T>, x: T, start: nat) returns (r: int)
    ensures r == -1 ==> forall k :: start <= k < |a| ==> a[k] != x
    ensures r != -1 ==> start <= r < |a| && a[r] == x && forall k :: start <= k < r ==> a[k] != x
  {
    var e := start;
    while e < |a|
      invariant start <= e
      invariant forall k :: start <= k < e && k < |a| ==> a[k] != x
    {
      if a[e] == x {
        return e;
      }
      e := e + 1;
    }
    return -1;
  }

  /** Taking the first match leaves the rest embedded behind it. */
  lemma EmbedsRest<T>(a: seq<T>, b: seq<T>, s: seq<nat>, from: nat, q: nat)
    requires s != [] && EmbedsFrom(a, b, s, from)
    requires from <= q && (forall k :: from <= k < q && k < |a| ==> a[k] != b[s[0]])
    ensures EmbedsFrom(a, b, s[1..], q + 1) && q < |a| && s[0] < |b|
  {
    var p :| Aligned(a, b, s, p) && (p != [] ==> from <= p[0]);
    assert a[p[0]] == b[s[0]];
    assert Aligned(a, b, s[1..], p[1..]);
  }

  /** The b-positions in the parts that are marked as matching. */
  function Marked<T>(bd: seq<seq<T>>, match_: seq<bool>): seq<nat>
    requires |bd| == |match_|
  {
    if bd == [] then []
    else
      var n := |bd| - 1;
      Marked(bd[..n], match_[..n]) + if match_[n] then Run(|Concat(bd[..n])|, |bd[n]|) else []
  }

  lemma MarkedPush<T>(bd: seq<seq<T>>, match_: seq<bool>, q: seq<T>, m: bool)
    requires |bd| == |match_|
    ensures Marked(bd + [q], match_ + [m]) == Marked(bd, match_) + if m then Run(|Concat(bd)|, |q|) else []
  {
    assert (bd + [q])[..|bd|] == bd && (match_ + [m])[..|bd|] == match_;
  }

  /** Matching parts and gaps take turns; matching parts are equal, and no part is empty on both sides. */
  ghost predicate TakeTurns<T>(ad: seq<seq<T>>, bd: seq<seq<T>>, match_: seq<bool>) {
    && |ad| == |bd| == |match_|
    && (forall k :: 0 <= k < |ad| ==> ad[k] != [] || bd[k] != [])
    && (forall k :: 0 <= k < |ad| && match_[k] ==> ad[k] == bd[k])
    && (forall k :: 0 <= k < |ad| - 1 ==> match_[k] != match_[k + 1])
  }

  /** The next part may be of kind m. */
  predicate MayFollow(match_: seq<bool>, m: bool) {
    match_ == [] || match_[|match_| - 1] != m
  }

  lemma TurnTaken<T>(ad: seq<seq<T>>, bd: seq<seq<T>>, match_: seq<bool>, p: seq<T>, q: seq<T>, m: bool)
    requires TakeTurns(ad, bd, match_) && MayFollow(match_, m) && (p != [] || q != []) && (m ==> p == q)
    ensures TakeTurns(ad + [p], bd + [q], match_ + [m]) && MayFollow(match_ + [m], !m)
  {
  }

  // ---- Where the matches are taken ----

  /** The first x in a from position `from` on, or |a|. */
  function FirstFrom<T(==)>(a: seq<T>, x: T, from: nat): (k: nat)
    requires from <= |a|
    ensures from <= k <= |a| && (k < |a| ==> a[k] == x) && forall j :: from <= j < k ==> a[j] != x
    decreases |a| - from
  {
    if from == |a| || a[from] == x then from else FirstFrom(a, x, from + 1)
  }

  /** Where diff_build takes the match of b[bi]: behind the match before, when that was of b[bi - 1] and the
      elements are alike; else at the first element that is the same.  `alike` compares by contents,
      while == and the compare table tell arrays apart by identity. */
  function Place<T(==)>(a: seq<T>, b: seq<T>, alike: (T, T) -> bool, from: nat, lbi: int, bi: nat): (k: nat)
    requires from <= |a| && bi < |b|
    ensures from <= k <= |a|
  {
    if bi == lbi + 1 && from < |a| && alike(a[from], b[bi]) then from else FirstFrom(a, b[bi], from)
  }

  /** Behind the last place. */
  function Behind(p: seq<nat>): nat {
    if p == [] then 0 else p[|p| - 1] + 1
  }

  function Before(s: seq<nat>, n: nat): int
    requires n <= |s|
  {
    if n == 0 then -1 else s[n - 1]
  }

  /** The places in a of the first n matches. */
  function Places<T(==)>(a: seq<T>, b: seq<T>, s: seq<nat>, alike: (T, T) -> bool, n: nat): (p: seq<nat>)
    requires n <= |s| && forall k :: 0 <= k < |s| ==> s[k] < |b|
    ensures |p| == n
  {
    if n == 0 then []
    else
      var p := Places(a, b, s, alike, n - 1);
      p + [if Behind(p) <= |a| then Place(a, b, alike, Behind(p), Before(s, n - 1), s[n - 1]) else |a|]
  }

  /** a with the elements at the first n places replaced by their partners in b. */
  function Replaced<T>(a: seq<T>, b: seq<T>, s: seq<nat>, p: seq<nat>, n: nat): (w: seq<T>)
    requires n <= |s| == |p| && forall k :: 0 <= k < |s| ==> s[k] < |b|
    ensures |w| == |a|
  {
    if n == 0 then a
    else
      var w := Replaced(a, b, s, p, n - 1);
      if p[n - 1] < |a| then w[p[n - 1] := b[s[n - 1]]] else w
  }

  /** What a reads like in the result of diff_build: matched elements come from b. */
  function Reads<T(==)>(a: seq<T>, b: seq<T>, s: seq<nat>, alike: (T, T) -> bool): (w: seq<T>)
    requires forall k :: 0 <= k < |s| ==> s[k] < |b|
    ensures |w| == |a|
  {
    Replaced(a, b, s, Places(a, b, s, alike, |s|), |s|)
  }

  /** Some element of a is taken for one that is alike but not the same. */
  ghost predicate Mistakes<T>(a: seq<T>, b: seq<T>, s: seq<nat>, alike: (T, T) -> bool)
    requires forall k :: 0 <= k < |s| ==> s[k] < |b|
  {
    var p := Places(a, b, s, alike, |s|);
    exists k :: 0 <= k < |s| && p[k] < |a| && a[p[k]] != b[s[k]]
  }

  ghost predicate Reflexive<T(!new)>(alike: (T, T) -> bool) {
    forall x :: alike(x, x)
  }

  /** Equally long, and alike at every position. */
  ghost predicate AllAlike<T>(a: seq<T>, w: seq<T>, alike: (T, T) -> bool) {
    |w| == |a| && forall i :: 0 <= i < |a| ==> alike(a[i], w[i])
  }

  lemma CommonInRange<T>(a: seq<T>, b: seq<T>, s: seq<nat>)
    requires CommonSubsequence(a, b, s)
    ensures Ascending(s) && EmbedsFrom(a, b, s, 0) && forall k :: 0 <= k < |s| ==> s[k] < |b|
  {
    var p :| Aligned(a, b, s, p);
  }

  lemma EmbedsInside<T>(a: seq<T>, b: seq<T>, s: seq<nat>, from: nat)
    requires s != [] && EmbedsFrom(a, b, s, from)
    ensures from < |a|
  {
  }

  /** The search for the next match succeeds, although alike elements were taken before. */
  lemma NextPlace<T>(a: seq<T>, b: seq<T>, s: seq<nat>, alike: (T, T) -> bool, n: nat, from: nat)
    requires n < |s| && s[n] < |b| && EmbedsFrom(a, b, s[n..], from)
    ensures from <= |a|
    ensures var q := Place(a, b, alike, from, Before(s, n), s[n]);
      q < |a| && (a[q] == b[s[n]] || alike(a[q], b[s[n]])) && EmbedsFrom(a, b, s[n + 1..], q + 1)
  {
    hide EmbedsFrom, Before;
    var t := s[n..];
    EmbedsInside(a, b, t, from);
    EmbedsRest(a, b, t, from, Place(a, b, alike, from, Before(s, n), s[n]));
    assert t[1..] == s[n + 1..];
  }

  lemma AscendingPush(p: seq<nat>, q: nat)
    requires Ascending(p) && Behind(p) <= q
    ensures Ascending(p + [q])
  {
  }

  /** At the places are the elements of s, or ones alike. */
  ghost predicate Taken<T>(a: seq<T>, b: seq<T>, s: seq<nat>, alike: (T, T) -> bool, p: seq<nat>)
    requires |p| <= |s| && forall k :: 0 <= k < |s| ==> s[k] < |b|
  {
    forall k :: 0 <= k < |p| ==> p[k] < |a| && (a[p[k]] == b[s[k]] || alike(a[p[k]], b[s[k]]))
  }

  lemma TakenPush<T>(a: seq<T>, b: seq<T>, s: seq<nat>, alike: (T, T) -> bool, p: seq<nat>, q: nat)
    requires |p| < |s| && (forall k :: 0 <= k < |s| ==> s[k] < |b|) && Taken(a, b, s, alike, p)
    requires q < |a| && (a[q] == b[s[|p|]] || alike(a[q], b[s[|p|]]))
    ensures Taken(a, b, s, alike, p + [q])
  {
  }

  /** Every search succeeds, and the places ascend. */
  lemma {:induction false} PlacesFit<T>(a: seq<T>, b: seq<T>, s: seq<nat>, alike: (T, T) -> bool, n: nat)
    requires CommonSubsequence(a, b, s) && n <= |s| && forall k :: 0 <= k < |s| ==> s[k] < |b|
    ensures var p := Places(a, b, s, alike, n);
      Ascending(p) && Taken(a, b, s, alike, p) && EmbedsFrom(a, b, s[n..], Behind(p))
  {
    hide EmbedsFrom, CommonSubsequence, Ascending, Place, Before, Taken;
    if n == 0 {
      NothingTaken(a, b, s, alike);
    } else {
      PlacesFit(a, b, s, alike, n - 1);
      var p := Places(a, b, s, alike, n - 1);
      NextPlace(a, b, s, alike, n - 1, Behind(p));
      var q := Place(a, b, alike, Behind(p), Before(s, n - 1), s[n - 1]);
      AscendingPush(p, q);
      TakenPush(a, b, s, alike, p, q);
    }
  }

  lemma NothingTaken<T>(a: seq<T>, b: seq<T>, s: seq<nat>, alike: (T, T) -> bool)
    requires CommonSubsequence(a, b, s) && forall k :: 0 <= k < |s| ==> s[k] < |b|
    ensures Ascending([]) && Taken(a, b, s, alike, []) && EmbedsFrom(a, b, s[0..], 0)
  {
    CommonInRange(a, b, s);
    assert s[0..] == s;
  }

  lemma {:induction false} PlacesPrefix<T>(a: seq<T>, b: seq<T>, s: seq<nat>, alike: (T, T) -> bool, n: nat, m: nat)
    requires n <= m <= |s| && forall k :: 0 <= k < |s| ==> s[k] < |b|
    ensures Places(a, b, s, alike, m)[..n] == Places(a, b, s, alike, n)
  {
    if n < m {
      PlacesPrefix(a, b, s, alike, n, m - 1);
    }
  }

  lemma {:induction false} ReplacedAt<T>(a: seq<T>, b: seq<T>, s: seq<nat>, p: seq<nat>, n: nat)
    requires n <= |s| == |p| && forall k :: 0 <= k < |s| ==> s[k] < |b|
    requires Ascending(p) && forall k :: 0 <= k < |p| ==> p[k] < |a|
    ensures var w := Replaced(a, b, s, p, n);
      && (forall k :: 0 <= k < n ==> w[p[k]] == b[s[k]])
      && (forall i :: 0 <= i < |a| && i !in p[..n] ==> w[i] == a[i])
  {
    if n > 0 {
      ReplacedAt(a, b, s, p, n - 1);
      assert p[..n] == p[..n - 1] + [p[n - 1]];
    }
  }

  lemma SplitAt(p: seq<nat>, n: nat)
    requires Ascending(p) && n <= |p|
    ensures forall k :: 0 <= k < n ==> p[k] < Behind(p[..n])
    ensures forall k :: n <= k < |p| ==> p[n] <= p[k]
  {
  }

  /** At the n-th place the n-th match is read, and between the places a. */
  lemma ReadBetween<T>(a: seq<T>, b: seq<T>, s: seq<nat>, p: seq<nat>, n: nat)
    requires n <= |s| == |p| && forall k :: 0 <= k < |s| ==> s[k] < |b|
    requires Ascending(p) && forall k :: 0 <= k < |p| ==> p[k] < |a|
    ensures var w := Replaced(a, b, s, p, |s|);
      && (n < |s| ==> w[p[n]] == b[s[n]])
      && forall j :: Behind(p[..n]) <= j < (if n < |s| then p[n] else |a|) ==> w[j] == a[j]
  {
    hide Replaced, Ascending, Behind;
    ReplacedAt(a, b, s, p, |s|);
    assert p[..|s|] == p;
    var w := Replaced(a, b, s, p, |s|);
    SplitAt(p, n);
  }

  /** The n-th match is taken at the n-th place, and up to there everything reads as in a. */
  lemma Turn<T>(a: seq<T>, b: seq<T>, s: seq<nat>, alike: (T, T) -> bool, n: nat)
    requires CommonSubsequence(a, b, s) && n < |s| && forall k :: 0 <= k < |s| ==> s[k] < |b|
    ensures var from, q := Behind(Places(a, b, s, alike, n)), Behind(Places(a, b, s, alike, n + 1)) - 1;
      && from <= q < |a| && q == Place(a, b, alike, from, Before(s, n), s[n])
      && Reads(a, b, s, alike)[q] == b[s[n]] && forall j :: from <= j < q ==> Reads(a, b, s, alike)[j] == a[j]
  {
    hide CommonSubsequence, EmbedsFrom, Place, Before;
    PlacesFit(a, b, s, alike, n);
    NextPlace(a, b, s, alike, n, Behind(Places(a, b, s, alike, n)));
    PlacesFit(a, b, s, alike, |s|);
    PlacesPrefix(a, b, s, alike, n, |s|);
    PlacesPrefix(a, b, s, alike, n + 1, |s|);
    var p := Places(a, b, s, alike, |s|);
    assert p[n] == p[..n + 1][n];
    ReadBetween(a, b, s, p, n);
    hide Replaced, Ascending;
  }

  /** Behind the last match everything reads as in a. */
  lemma LastTurn<T>(a: seq<T>, b: seq<T>, s: seq<nat>, alike: (T, T) -> bool)
    requires CommonSubsequence(a, b, s) && forall k :: 0 <= k < |s| ==> s[k] < |b|
    ensures var from, w := Behind(Places(a, b, s, alike, |s|)), Reads(a, b, s, alike);
      from <= |a| && forall j :: from <= j < |a| ==> w[j] == a[j]
  {
    PlacesFit(a, b, s, alike, |s|);
    var p := Places(a, b, s, alike, |s|);
    ReadBetween(a, b, s, p, |s|);
    assert p[..|s|] == p;
  }

  /** The first result reads like a, by contents; it is a exactly when no mistake is made. */
  lemma ReadsLikeA<T(!new)>(a: seq<T>, b: seq<T>, s: seq<nat>, alike: (T, T) -> bool)
    requires CommonSubsequence(a, b, s) && forall k :: 0 <= k < |s| ==> s[k] < |b|
    ensures Reflexive(alike) ==> AllAlike(a, Reads(a, b, s, alike), alike)
    ensures Reads(a, b, s, alike) == a <==> !Mistakes(a, b, s, alike)
  {
    PlacesFit(a, b, s, alike, |s|);
    var p, w := Places(a, b, s, alike, |s|), Reads(a, b, s, alike);
    ReplacedAt(a, b, s, p, |s|);
    assert p[..|s|] == p;
    hide Places, Reads, Replaced;
    forall i | 0 <= i < |a|
      ensures w[i] == a[i] || (i in p && exists k :: 0 <= k < |s| && p[k] == i && w[i] == b[s[k]])
    {
      if i in p {
        var k :| 0 <= k < |p| && p[k] == i;
      }
    }
  }

  // ---- Building the parts ----

  /** What the loop of diff_build keeps.  Parts cover w[..from] and b[..eqstart]; the run
      b[eqstart..eqstart+len] equals the next stretch of w; the matching parts and the run hold the first
      positions of s. */
  ghost predicate Building<T>(w: seq<T>, b: seq<T>, s: seq<nat>, ad: seq<seq<T>>, bd: seq<seq<T>>, match_: seq<bool>,
                              from: nat, eqstart: nat, len: nat, done: nat) {
    && from + len <= |w| && eqstart + len <= |b|
    && TakeTurns(ad, bd, match_) && Concat(ad) == w[..from] && Concat(bd) == b[..eqstart]
    && w[from..from + len] == b[eqstart..eqstart + len]
    && done <= |s| && Marked(bd, match_) + Run(eqstart, len) == s[..done]
    && (done < |s| ==> eqstart + len <= s[done])
  }

  /** One more matching element extends the run. */
  lemma RunGrows<T>(w: seq<T>, b: seq<T>, s: seq<nat>, ad: seq<seq<T>>, bd: seq<seq<T>>, match_: seq<bool>,
                    from: nat, eqstart: nat, len: nat, done: nat)
    requires Building(w, b, s, ad, bd, match_, from, eqstart, len, done) && Ascending(s)
    requires done < |s| && s[done] == eqstart + len < |b| && from + len < |w| && w[from + len] == b[s[done]]
    ensures Building(w, b, s, ad, bd, match_, from, eqstart, len + 1, done + 1)
  {
    hide Marked, Concat, TakeTurns;
    assert w[from..from + len + 1] == w[from..from + len] + [w[from + len]];
    assert b[eqstart..eqstart + len + 1] == b[eqstart..eqstart + len] + [b[eqstart + len]];
    assert Run(eqstart, len + 1) == Run(eqstart, len) + [s[done]];
    assert s[..done + 1] == s[..done] + [s[done]];
  }

  /** The run becomes a part of its own. */
  lemma RunPushed<T>(w: seq<T>, b: seq<T>, s: seq<nat>, ad: seq<seq<T>>, bd: seq<seq<T>>, match_: seq<bool>,
                     from: nat, eqstart: nat, len: nat, done: nat)
    requires Building(w, b, s, ad, bd, match_, from, eqstart, len, done) && len > 0 && MayFollow(match_, true)
    ensures var e := b[eqstart..eqstart + len];
      Building(w, b, s, ad + [e], bd + [e], match_ + [true], from + len, eqstart + len, 0, done)
      && MayFollow(match_ + [true], false)
  {
    var e := b[eqstart..eqstart + len];
    ConcatPush(ad, e);
    ConcatPush(bd, e);
    MarkedPush(bd, match_, e, true);
    TurnTaken(ad, bd, match_, e, e, true);
    assert w[..from] + e == w[..from + len];
    assert b[..eqstart] + e == b[..eqstart + len];
    assert w[from + len..from + len + 0] == b[eqstart + len..eqstart + len + 0] == [];
    assert Run(eqstart + len, 0) == [];
  }

  /** The unmatched stretches up to the next match become a pair of parts. */
  lemma GapPushed<T>(a: seq<T>, w: seq<T>, b: seq<T>, s: seq<nat>, ad: seq<seq<T>>, bd: seq<seq<T>>, match_: seq<bool>,
                     from: nat, eqstart: nat, done: nat, q: nat, bi: nat)
    requires Building(w, b, s, ad, bd, match_, from, eqstart, 0, done) && MayFollow(match_, false)
    requires from <= q <= |w| == |a| && eqstart <= bi <= |b| && (from < q || eqstart < bi)
    requires (done < |s| ==> bi <= s[done]) && forall j :: from <= j < q ==> w[j] == a[j]
    ensures Building(w, b, s, ad + [a[from..q]], bd + [b[eqstart..bi]], match_ + [false], q, bi, 0, done)
    ensures MayFollow(match_ + [false], true)
  {
    ConcatPush(ad, a[from..q]);
    ConcatPush(bd, b[eqstart..bi]);
    MarkedPush(bd, match_, b[eqstart..bi], false);
    TurnTaken(ad, bd, match_, a[from..q], b[eqstart..bi], false);
    assert a[from..q] == w[from..q];
    assert w[..from] + w[from..q] == w[..q];
    assert b[..eqstart] + b[eqstart..bi] == b[..bi];
    assert w[q..q + 0] == b[bi..bi + 0] == [];
    assert Run(eqstart, 0) == Run(bi, 0) == [];
  }

  lemma StartBuilding<T>(w: seq<T>, b: seq<T>, s: seq<nat>)
    ensures Building(w, b, s, [], [], [], 0, 0, 0, 0)
  {
  }

  lemma InBounds<T>(w: seq<T>, b: seq<T>, s: seq<nat>, ad: seq<seq<T>>, bd: seq<seq<T>>, match_: seq<bool>,
                    from: nat, eqstart: nat, len: nat, done: nat)
    requires Building(w, b, s, ad, bd, match_, from, eqstart, len, done)
    ensures from + len <= |w| && eqstart + len <= |b| && done <= |s|
    ensures done < |s| ==> eqstart + len <= s[done]
  {
  }

  lemma AllBuilt<T>(w: seq<T>, b: seq<T>, s: seq<nat>, ad: seq<seq<T>>, bd: seq<seq<T>>, match_: seq<bool>)
    requires Building(w, b, s, ad, bd, match_, |w|, |b|, 0, |s|)
    ensures Concat(ad) == w && Concat(bd) == b && TakeTurns(ad, bd, match_) && Marked(bd, match_) == s
    ensures CommonLen(ad, bd) >= |s|
  {
    assert w[..|w|] == w && b[..|b|] == b && s[..|s|] == s;
    assert Run(|b|, 0) == [];
    MarkedIsCommon(ad, bd, match_);
  }

  lemma {:induction false} MarkedIsCommon<T>(ad: seq<seq<T>>, bd: seq<seq<T>>, match_: seq<bool>)
    requires |ad| == |bd| == |match_| && forall k :: 0 <= k < |ad| && match_[k] ==> ad[k] == bd[k]
    ensures |Marked(bd, match_)| <= CommonLen(ad, bd)
    decreases |ad|
  {
    if ad != [] {
      var n := |ad| - 1;
      MarkedIsCommon(ad[..n], bd[..n], match_[..n]);
    }
  }

  /** A common sequence than which none is longer. */
  ghost predicate LongestCommon<T>(a: seq<T>, b: seq<T>, s: seq<nat>) {
    CommonSubsequence(a, b, s) && forall r :: CommonSubsequence(a, b, r) ==> |r| <= |s|
  }

  /** Which parts are equal. */
  function Equals<T(==)>(ad: seq<seq<T>>, bd: seq<seq<T>>): (r: seq<bool>)
    requires |ad| == |bd|
    ensures |r| == |ad|
  {
    seq(|ad|, k requires 0 <= k < |ad| => ad[k] == bd[k])
  }

  /** The parts along s: equal parts spell out s and take turns with parts that have no element in common. */
  ghost predicate PartsAlong<T>(ad: seq<seq<T>>, bd: seq<seq<T>>, s: seq<nat>) {
    && |ad| == |bd| && TakeTurns(ad, bd, Equals(ad, bd)) && Marked(bd, Equals(ad, bd)) == s
    && forall k, x :: 0 <= k < |ad| && ad[k] != bd[k] ==> !(x in ad[k] && x in bd[k])
  }

  /** An element on both sides of a gap would make a common sequence longer. */
  lemma {:induction false} SharedExtends<T>(ad: seq<seq<T>>, bd: seq<seq<T>>, match_: seq<bool>, k: nat, x: T)
    returns (s: seq<nat>, p: seq<nat>)
    requires |ad| == |bd| == |match_| && forall k :: 0 <= k < |ad| && match_[k] ==> ad[k] == bd[k]
    requires k < |ad| && !match_[k] && x in ad[k] && x in bd[k]
    ensures Aligned(Concat(ad), Concat(bd), s, p) && |s| > |Marked(bd, match_)|
    decreases |ad|
  {
    hide Aligned;
    var n := |ad| - 1;
    var y, z := Concat(ad[..n]), Concat(bd[..n]);
    if k == n {
      s, p := PartsAreCommon(ad[..n], bd[..n]);
      MarkedIsCommon(ad[..n], bd[..n], match_[..n]);
      var u :| 0 <= u < |ad[n]| && ad[n][u] == x;
      var v :| 0 <= v < |bd[n]| && bd[n][v] == x;
      AlignedOne(y, z, s, p, ad[n], bd[n], u, v);
      s, p := s + [|z| + v], p + [|y| + u];
    } else {
      s, p := SharedExtends(ad[..n], bd[..n], match_[..n], k, x);
      if match_[n] {
        AlignedRun(y, z, s, p, ad[n]);
        s, p := s + Run(|z|, |ad[n]|), p + Run(|y|, |ad[n]|);
      } else {
        AlignedGap(y, z, s, p, ad[n], bd[n]);
      }
    }
  }

  /** Along a longest common sequence nothing is shared across a gap. */
  lemma BuiltAlong<T>(a: seq<T>, b: seq<T>, ad: seq<seq<T>>, bd: seq<seq<T>>, match_: seq<bool>)
    requires Concat(ad) == a && Concat(bd) == b && TakeTurns(ad, bd, match_)
    requires LongestCommon(a, b, Marked(bd, match_))
    ensures PartsAlong(ad, bd, Marked(bd, match_))
  {
    forall k, x | 0 <= k < |ad| && !match_[k] ensures !(x in ad[k] && x in bd[k]) {
      if x in ad[k] && x in bd[k] {
        var s, p := SharedExtends(ad, bd, match_, k, x);
        assert CommonSubsequence(a, b, s);
      }
    }
    forall k | 0 <= k < |ad| ensures match_[k] == (ad[k] == bd[k]) {
      if ad[k] == bd[k] {
        assert ad[k][0] in bd[k];
      }
    }
    assert Equals(ad, bd) == match_;
  }

  /** The equality before the current position, if there is one, becomes a part. */
  method PushRun<T>(b: seq<T>, ghost w: seq<T>, ghost s: seq<nat>, ad0: seq<seq<T>>, bd0: seq<seq<T>>,
                    ghost match0: seq<bool>, ghost ai: int, lbi: int, eqstart: nat, ghost done: nat)
    returns (ad: seq<seq<T>>, bd: seq<seq<T>>, ghost match_: seq<bool>)
    requires -1 <= lbi && eqstart <= lbi + 1 && 0 <= ai + eqstart - lbi
    requires Building(w, b, s, ad0, bd0, match0, ai + eqstart - lbi, eqstart, lbi + 1 - eqstart, done)
    requires if lbi >= eqstart then MayFollow(match0, true) else match0 == []
    ensures Building(w, b, s, ad, bd, match_, ai + 1, lbi + 1, 0, done) && MayFollow(match_, false)
  {
    ad, bd, match_ := ad0, bd0, match0;
    if lbi >= eqstart {
      InBounds(w, b, s, ad, bd, match_, ai + eqstart - lbi, eqstart, lbi + 1 - eqstart, done);
      RunPushed(w, b, s, ad, bd, match_, ai + eqstart - lbi, eqstart, lbi + 1 - eqstart, done);
      hide Building, MayFollow;
      var e := b[eqstart..lbi + 1];
      ad, bd, match_ := ad + [e], bd + [e], match_ + [true];
    }
  }

  /** When the run ends, the search finds the next place, and something lies before it. */
  lemma SearchFinds<T(!new)>(a: seq<T>, b: seq<T>, alike: (T, T) -> bool, from: nat, lbi: int, bi: nat, found: int)
    requires Reflexive(alike) && -1 <= lbi < bi < |b| && from < |a| && Place(a, b, alike, from, lbi, bi) < |a|
    requires bi != lbi + 1 || !alike(a[from], b[bi])
    requires found == -1 ==> forall k :: from <= k < |a| ==> a[k] != b[bi]
    requires found != -1 ==> from <= found < |a| && a[found] == b[bi] && forall k :: from <= k < found ==> a[k] != b[bi]
    ensures found == Place(a, b, alike, from, lbi, bi) && (from < found || lbi + 1 < bi)
  {
    assert a[Place(a, b, alike, from, lbi, bi)] == b[bi];
  }

  /** What lies before the next match becomes a pair of parts. */
  method PushDifference<T(==, !new)>(a: seq<T>, b: seq<T>, ghost w: seq<T>, ghost s: seq<nat>,
                                     ghost alike: (T, T) -> bool, ad0: seq<seq<T>>, bd0: seq<seq<T>>,
                                     ghost match0: seq<bool>, lai: int, lbi: int, bi: nat, ghost done: nat)
    returns (ad: seq<seq<T>>, bd: seq<seq<T>>, ghost match_: seq<bool>, ai: int)
    requires -1 <= lai && -1 <= lbi < bi < |b| && Reflexive(alike) && |w| == |a|
    requires Building(w, b, s, ad0, bd0, match0, lai + 1, lbi + 1, 0, done) && MayFollow(match0, false)
    requires done < |s| && s[done] == bi && lai + 1 < |a|
    requires bi != lbi + 1 || !alike(a[lai + 1], b[bi])
    requires var q := Place(a, b, alike, lai + 1, lbi, bi); q < |a| && forall j :: lai + 1 <= j < q ==> w[j] == a[j]
    ensures ai + 1 == Place(a, b, alike, lai + 1, lbi, bi)
    ensures Building(w, b, s, ad, bd, match_, ai + 1, bi, 0, done) && MayFollow(match_, true)
  {
    hide Building, MayFollow, Reflexive, Place;
    var found := ArraySearch(a, b[bi], lai + 1);
    SearchFinds(a, b, alike, lai + 1, lbi, bi, found);
    ai := found - 1;
    GapPushed(a, w, b, s, ad0, bd0, match0, lai + 1, lbi + 1, done, found, bi);
    bd := bd0 + [b[lbi + 1..bi]];
    ad := ad0 + [a[lai + 1..ai + 1]];
    match_ := match0 + [false];
  }

  lemma RunGoesOn<T>(a: seq<T>, b: seq<T>, alike: (T, T) -> bool, from: nat, lbi: int, bi: nat)
    requires bi == lbi + 1 < |b| && from < |a| && alike(a[from], b[bi])
    ensures Place(a, b, alike, from, lbi, bi) == from
  {
  }

  /** The loop of diff_build, and what it leaves to cut. */
  method CutAlong<T(==, !new)>(a: seq<T>, b: seq<T>, s: seq<nat>, alike: (T, T) -> bool)
    returns (ad: seq<seq<T>>, bd: seq<seq<T>>, ghost match_: seq<bool>)
    requires CommonSubsequence(a, b, s) && Reflexive(alike)
    ensures forall k :: 0 <= k < |s| ==> s[k] < |b|
    ensures Building(Reads(a, b, s, alike), b, s, ad, bd, match_, |a|, |b|, 0, |s|)
  {
    hide Building, MayFollow, Place, Reads, CommonSubsequence, Reflexive, Ascending, Aligned, EmbedsFrom;
    ad, bd := [], [];
    var eqstart, lbi, bi, ai := 0, -1, -1, -1;
    match_ := [];
    CommonInRange(a, b, s);
    ghost var w := Reads(a, b, s, alike);
    StartBuilding(w, b, s);
    FirstMayBeAny();
    assert Behind(Places(a, b, s, alike, 0)) == 0;
    hide Places, Behind;
    for i := 0 to |s|
      invariant -1 <= lbi == bi == Before(s, i) && 0 <= eqstart <= lbi + 1 && 0 <= ai + eqstart - lbi
      invariant ai + 1 == Behind(Places(a, b, s, alike, i))
      invariant Building(w, b, s, ad, bd, match_, ai + eqstart - lbi, eqstart, lbi + 1 - eqstart, i)
      invariant if lbi >= eqstart then MayFollow(match_, true) else match_ == []
    {
      bi := s[i];
      InBounds(w, b, s, ad, bd, match_, ai + eqstart - lbi, eqstart, lbi + 1 - eqstart, i);
      Turn(a, b, s, alike, i);
      if bi != lbi + 1 || !alike(a[ai + 1], b[bi]) {
        ad, bd, match_ := PushRun(b, w, s, ad, bd, match_, ai, lbi, eqstart, i);
        ad, bd, match_, ai := PushDifference(a, b, w, s, alike, ad, bd, match_, ai, lbi, bi, i);
        eqstart := bi;
        RunGrows(w, b, s, ad, bd, match_, ai + 1, bi, 0, i);
      } else {
        RunGoesOn(a, b, alike, ai + 1, lbi, bi);
        RunGrows(w, b, s, ad, bd, match_, ai + eqstart - lbi, eqstart, lbi + 1 - eqstart, i);
      }
      ai := ai + 1;
      lbi := bi;
    }
    InBounds(w, b, s, ad, bd, match_, ai + eqstart - lbi, eqstart, lbi + 1 - eqstart, |s|);
    ad, bd, match_ := PushRun(b, w, s, ad, bd, match_, ai, lbi, eqstart, |s|);
    LastTurn(a, b, s, alike);
    if |b| > bi + 1 || |a| > ai + 1 {
      GapPushed(a, w, b, s, ad, bd, match_, ai + 1, lbi + 1, |s|, |a|, |b|);
      bd := bd + [b[lbi + 1..|b|]];
      ad := ad + [a[ai + 1..|a|]];
      match_ := match_ + [false];
      assert Building(w, b, s, ad, bd, match_, |a|, |b|, 0, |s|);
    }
    assert |a| == |w|;
  }

  /** Cut both arrays into equally many parts, along a common sequence.  The second result is always b. The
      first is a, by contents; and it is a itself, with the equal parts spelling out a longest sequence and
      nothing in common across the others, exactly when no element is mistaken for one that is alike. */
  method DiffBuild<T(==, !new)>(a: seq<T>, b: seq<T>, s: seq<nat>, alike: (T, T) -> bool)
    returns (ad: seq<seq<T>>, bd: seq<seq<T>>, ghost match_: seq<bool>)
    requires CommonSubsequence(a, b, s) && Reflexive(alike)
    ensures forall k :: 0 <= k < |s| ==> s[k] < |b|
    ensures Concat(bd) == b && Concat(ad) == Reads(a, b, s, alike) && AllAlike(a, Concat(ad), alike)
    ensures |ad| == |bd| && CommonLen(ad, bd) >= |s| && TakeTurns(ad, bd, match_) && Marked(bd, match_) == s
    ensures Mistakes(a, b, s, alike) <==> Concat(ad) != a
    ensures LongestCommon(a, b, s) && !Mistakes(a, b, s, alike) ==> PartsAlong(ad, bd, s)
  {
    hide Building, PartsAlong, LongestCommon, TakeTurns, Marked, Concat, CommonLen;
    hide Reads, Mistakes, CommonSubsequence, Reflexive, AllAlike;
    ad, bd, match_ := CutAlong(a, b, s, alike);
    AllBuilt(Reads(a, b, s, alike), b, s, ad, bd, match_);
    ReadsLikeA(a, b, s, alike);
    AlongIfLongest(a, b, s, ad, bd, match_);
  }

  lemma AlongIfLongest<T>(a: seq<T>, b: seq<T>, s: seq<nat>, ad: seq<seq<T>>, bd: seq<seq<T>>, match_: seq<bool>)
    requires Concat(bd) == b && TakeTurns(ad, bd, match_) && Marked(bd, match_) == s
    ensures |ad| == |bd| && (Concat(ad) == a && LongestCommon(a, b, s) ==> PartsAlong(ad, bd, s))
  {
    hide PartsAlong;
    if Concat(ad) == a && LongestCommon(a, b, s) {
      BuiltAlong(a, b, ad, bd, match_);
    }
  }

  /** Alike elements of the two arrays are the same. */
  ghost predicate OnlySameAlike<T(!new)>(a: seq<T>, b: seq<T>, alike: (T, T) -> bool) {
    forall x, y :: x in a && y in b && alike(x, y) ==> x == y
  }

  /** Then no mistake is made. */
  lemma NoMistakes<T(!new)>(a: seq<T>, b: seq<T>, s: seq<nat>, alike: (T, T) -> bool)
    requires CommonSubsequence(a, b, s) && OnlySameAlike(a, b, alike)
    ensures (forall k :: 0 <= k < |s| ==> s[k] < |b|) && !Mistakes(a, b, s, alike)
  {
    CommonInRange(a, b, s);
    PlacesFit(a, b, s, alike, |s|);
    var p := Places(a, b, s, alike, |s|);
    forall k | 0 <= k < |s| ensures a[p[k]] == b[s[k]] {
      assert a[p[k]] in a && b[s[k]] in b;
    }
  }

  lemma OneCrossing(r: seq<nat>, u: seq<nat>, c: nat)
    requires Ascending(r) && Ascending(u) && |r| == |u| && forall k :: 0 <= k < |r| ==> u[k] + r[k] == c
    ensures |r| <= 1
  {
    var n := |r|;
    assert n > 0 ==> r[0] <= r[n - 1] && u[0] <= u[n - 1];
  }

  /** Two different arrays p and q with the same contents: in p, c, q and q, c the only match of q is taken
      at p.  Then c is left on both sides, the first result reads q, c, q, and by contents both p and c
      could have been matched. */
  lemma MistakenExample<T>(p: T, c: T, q: T, alike: (T, T) -> bool)
    requires p != q && p != c && c != q && alike(p, q) && alike(c, c)
    ensures var a, b := [p, c, q], [q, c];
      && LongestCommon(a, b, [0]) && Mistakes(a, b, [0], alike) && Reads(a, b, [0], alike) == [q, c, q]
      && AllAlike(a[..2], b, alike)
  {
    hide Places, Place, LongestCommon, Replaced;
    var a, b := [p, c, q], [q, c];
    MistakenIsLongest(p, c, q);
    MistakenPlace(p, c, q, alike);
    assert Reads(a, b, [0], alike) == Replaced(a, b, [0], [0], 1);
    OneReplaced(a, b, [0], [0]);
  }

  lemma OneReplaced<T>(a: seq<T>, b: seq<T>, s: seq<nat>, p: seq<nat>)
    requires |s| == |p| == 1 && s[0] < |b| && p[0] < |a|
    ensures Replaced(a, b, s, p, 1) == a[p[0] := b[s[0]]]
  {
    assert Replaced(a, b, s, p, 0) == a;
  }

  lemma MistakenPlace<T>(p: T, c: T, q: T, alike: (T, T) -> bool)
    requires alike(p, q)
    ensures Places([p, c, q], [q, c], [0], alike, 1) == [0]
  {
    assert Places([p, c, q], [q, c], [0], alike, 0) == [];
  }

  lemma MistakenIsLongest<T>(p: T, c: T, q: T)
    requires p != q && p != c && c != q
    ensures LongestCommon([p, c, q], [q, c], [0])
  {
    var a, b := [p, c, q], [q, c];
    assert Aligned(a, b, [0], [2]);
    forall r | CommonSubsequence(a, b, r) ensures |r| <= 1 {
      var u :| Aligned(a, b, r, u);
      Crossed(p, c, q, r, u);
      OneCrossing(r, u, 2);
    }
  }

  lemma Crossed<T>(p: T, c: T, q: T, r: seq<nat>, u: seq<nat>)
    requires p != q && p != c && c != q && Aligned([p, c, q], [q, c], r, u)
    ensures forall k :: 0 <= k < |r| ==> u[k] + r[k] == 2
  {
    forall k | 0 <= k < |r| ensures u[k] + r[k] == 2 {
      assert [p, c, q][u[k]] == [q, c][r[k]];
    }
  }

  lemma FirstMayBeAny()
    ensures MayFollow([], true) && MayFollow([], false)
  {
  }

  // ---- The whole of diff() ----

  /** No aligned parts of these arrays can share more than a longest common sequence does. */
  lemma PartsBound<T>(a: seq<T>, b: seq<T>, t: Table, s: seq<nat>, ad: seq<seq<T>>, bd: seq<seq<T>>)
    requires IsTableOf(t, a, b) && Longest(t, s)
    requires |ad| == |bd| && Concat(ad) == a && Concat(bd) == b
    ensures CommonLen(ad, bd) <= |s|
  {
    var r, p := PartsAreCommon(ad, bd);
    assert CommonSubsequence(a, b, r);
    TableMeaning(t, a, b, r);
  }

  /** The parts put together are the arrays, and no other way to cut them into aligned parts
      has more in common. */
  ghost predicate BestParts<T(!new)>(a: seq<T>, b: seq<T>, ad: seq<seq<T>>, bd: seq<seq<T>>) {
    && Concat(ad) == a && Concat(bd) == b && |ad| == |bd|
    && forall cd, dd :: Concat(cd) == a && Concat(dd) == b && |cd| == |dd| ==> CommonLen(cd, dd) <= CommonLen(ad, bd)
  }

  lemma PartsAreBest<T(!new)>(a: seq<T>, b: seq<T>, t: Table, s: seq<nat>, ad: seq<seq<T>>, bd: seq<seq<T>>)
    requires IsTableOf(t, a, b) && Longest(t, s)
    requires |ad| == |bd| && Concat(ad) == a && Concat(bd) == b && CommonLen(ad, bd) >= |s|
    ensures BestParts(a, b, ad, bd)
  {
    forall cd, dd | Concat(cd) == a && Concat(dd) == b && |cd| == |dd|
      ensures CommonLen(cd, dd) <= CommonLen(ad, bd)
    {
      PartsBound(a, b, t, s, cd, dd);
    }
  }

  lemma {:induction false} CommonLenBound<T>(ad: seq<seq<T>>, bd: seq<seq<T>>)
    requires |ad| == |bd|
    ensures CommonLen(ad, bd) <= |Concat(ad)| && CommonLen(ad, bd) <= |Concat(bd)|
  {
    if ad != [] {
      CommonLenBound(ad[..|ad| - 1], bd[..|bd| - 1]);
    }
  }

  /** The arrays are one and the same, or one of them is empty: they are parts as they are. */
  lemma WholeParts<T(!new)>(a: seq<T>, b: seq<T>)
    requires a == b || a == [] || b == []
    ensures BestParts(a, b, [a], [b])
    ensures a == b == [] ==> BestParts(a, b, [], [])
  {
    assert [a][..0] == [] && [b][..0] == [];
    forall cd, dd | Concat(cd) == a && Concat(dd) == b && |cd| == |dd|
      ensures CommonLen(cd, dd) <= if a == b then |a| else 0
    {
      CommonLenBound(cd, dd);
    }
    assert CommonLen([a], [b]) == if a == b then |a| else 0;
  }

  lemma LongestOfTable<T>(t: Table, a: seq<T>, b: seq<T>, s: seq<nat>)
    requires IsTableOf(t, a, b) && Longest(t, s)
    ensures LongestCommon(a, b, s) && CommonSubsequence(a, b, s)
  {
    TableMeaning(t, a, b, s);
    forall r | CommonSubsequence(a, b, r) ensures |r| <= |s| {
      TableMeaning(t, a, b, r);
    }
  }

  /** The longest common sequence is everything, or nothing. */
  lemma WholeIsLongest<T>(a: seq<T>, b: seq<T>) returns (s: seq<nat>)
    requires a == b || a == [] || b == []
    ensures LongestCommon(a, b, s) && s == Run(0, if a == b then |a| else 0)
  {
    s := Run(0, if a == b then |a| else 0);
    assert Aligned(a, b, s, s);
    forall r | CommonSubsequence(a, b, r) ensures |r| <= |s| {
      var p :| Aligned(a, b, r, p);
      AscendingFits(r, |b|);
      AscendingFits(p, |a|);
    }
  }

  lemma OnePart<T>(a: seq<T>, b: seq<T>)
    requires (a == b || a == [] || b == []) && (a != [] || b != [])
    ensures PartsAlong([a], [b], Run(0, if a == b then |a| else 0))
  {
    var empty: seq<seq<T>> := [];
    MarkedPush(empty, [], b, a == b);
    assert empty + [b] == [b] && [] + [a == b] == [a == b] == Equals([a], [b]);
    hide Marked, Equals;
    assert Run(0, |b|) == [] + Run(0, |b|);
  }

  lemma NoPart<T>()
    ensures PartsAlong<T>([], [], Run(0, 0))
  {
  }

  /** They are cut along it. */
  lemma WholeAlong<T>(a: seq<T>, b: seq<T>) returns (s: seq<nat>)
    requires a == b || a == [] || b == []
    ensures LongestCommon(a, b, s) && s == Run(0, if a == b then |a| else 0)
    ensures if a == b == [] then PartsAlong<T>([], [], s) else PartsAlong([a], [b], s)
  {
    hide PartsAlong, LongestCommon;
    s := WholeIsLongest(a, b);
    if a != [] || b != [] {
      OnePart(a, b);
    } else {
      NoPart<T>();
    }
  }

  /** Ascending positions below n are no more than n. */
  lemma {:induction false} AscendingFits(s: seq<nat>, n: nat)
    requires Ascending(s) && forall k :: 0 <= k < |s| ==> s[k] < n
    ensures |s| <= n
  {
    if s != [] {
      AscendingFits(s[..|s| - 1], s[|s| - 1]);
    }
  }

  /** On equal arrays every element is taken for itself; with one of them empty there is nothing to take. */
  lemma {:induction false} WholePlaces<T>(a: seq<T>, s: seq<nat>, alike: (T, T) -> bool, n: nat)
    requires s == Run(0, |a|) && n <= |s| && forall i :: 0 <= i < |a| ==> alike(a[i], a[i])
    ensures Places(a, a, s, alike, n) == Run(0, n)
  {
    if n > 0 {
      WholePlaces(a, s, alike, n - 1);
    }
  }

  lemma WholeNoMistakes<T(!new)>(a: seq<T>, b: seq<T>, s: seq<nat>, alike: (T, T) -> bool)
    requires a == b || a == [] || b == []
    requires s == Run(0, if a == b then |a| else 0) && Reflexive(alike)
    ensures !Mistakes(a, b, s, alike)
  {
    if a == b {
      WholePlaces(a, s, alike, |s|);
    }
  }

  /** diff().  `same` tells that both arguments are one array; `dynDiff` whether the dynamic program is
      compiled in.  The results are cut along a longest common sequence s: the second is always b, and the
      first is a by contents.  They are the best possible parts of a and b exactly when no element is mistaken
      for one that is alike, for which it is enough that alike elements of a and b are the same. */
  method DiffArrays<T(==, !new)>(a: seq<T>, b: seq<T>, same: bool, dynDiff: bool, alike: (T, T) -> bool)
    returns (ad: seq<seq<T>>, bd: seq<seq<T>>, ghost s: seq<nat>)
    requires (same ==> a == b) && Reflexive(alike)
    ensures LongestCommon(a, b, s) && forall k :: 0 <= k < |s| ==> s[k] < |b|
    ensures |ad| == |bd| && Concat(bd) == b && AllAlike(a, Concat(ad), alike) && CommonLen(ad, bd) >= |s|
    ensures BestParts(a, b, ad, bd) <==> !Mistakes(a, b, s, alike)
    ensures BestParts(a, b, ad, bd) ==> PartsAlong(ad, bd, s)
    ensures same || a == [] || b == [] || OnlySameAlike(a, b, alike) ==> BestParts(a, b, ad, bd)
  {
    hide BestParts, PartsAlong, LongestCommon, Mistakes, AllAlike, Reflexive, OnlySameAlike, CommonSubsequence;
    hide Concat, CommonLen, TakeTurns, Marked;
    if same || |a| == 0 || |b| == 0 {
      WholeParts(a, b);
      s := WholeAlong(a, b);
      WholeNoMistakes(a, b, s, alike);
      AlikeItself(a, alike);
      if |a| == 0 && |b| == 0 {
        ad, bd := [], [];
      } else {
        ad, bd := [a], [b];
      }
      OfBestParts(a, b, ad, bd);
      AlongShares(ad, bd, s);
      return;
    }
    var cmptbl, uniq := DiffCompareTable(a, b);
    var found: seq<nat>;
    if !dynDiff || uniq * 100 > |cmptbl| {
      found := DiffLongest.DiffLongestSequence(cmptbl, |b|);
    } else {
      found := DiffDyn.DiffDynLongestSequence(cmptbl, |b|);
    }
    s := found;
    LongestOfTable(cmptbl, a, b, s);
    ghost var match_;
    ad, bd, match_ := DiffBuild(a, b, found, alike);
    if Concat(ad) == a {
      PartsAreBest(a, b, cmptbl, s, ad, bd);
    } else {
      NotBest(a, b, ad, bd);
    }
    if OnlySameAlike(a, b, alike) {
      NoMistakes(a, b, s, alike);
    }
  }

  lemma AlikeItself<T(!new)>(a: seq<T>, alike: (T, T) -> bool)
    requires Reflexive(alike)
    ensures AllAlike(a, a, alike)
  {
  }

  lemma NotBest<T(!new)>(a: seq<T>, b: seq<T>, ad: seq<seq<T>>, bd: seq<seq<T>>)
    requires Concat(ad) != a
    ensures !BestParts(a, b, ad, bd)
  {
  }

  lemma OfBestParts<T(!new)>(a: seq<T>, b: seq<T>, ad: seq<seq<T>>, bd: seq<seq<T>>)
    requires BestParts(a, b, ad, bd)
    ensures Concat(ad) == a && Concat(bd) == b && |ad| == |bd|
  {
  }

  lemma AlongShares<T>(ad: seq<seq<T>>, bd: seq<seq<T>>, s: seq<nat>)
    requires PartsAlong(ad, bd, s)
    ensures |ad| == |bd| && CommonLen(ad, bd) >= |s|
  {
    MarkedIsCommon(ad, bd, Equals(ad, bd));
  }

  /** In p, p, c, q, q and q, q, c the longest common sequence is q, q, and no other. */
  lemma Forced<T>(p: T, c: T, q: T, r: seq<nat>)
    requires p != q && p != c && c != q && LongestCommon([p, p, c, q, q], [q, q, c], r)
    ensures r == [0, 1]
  {
    var a, b := [p, p, c, q, q], [q, q, c];
    assert Aligned(a, b, [0, 1], [3, 4]);
    assert CommonSubsequence(a, b, [0, 1]);
    var u :| Aligned(a, b, r, u);
    ForcedPlaces(p, c, q, r, u);
    hide Aligned, LongestCommon, CommonSubsequence;
    assert u[0] < u[1] && r[0] < r[1];
    assert forall k :: 1 <= k < |r| ==> u[0] < u[k];
    assert r[|r| - 1] >= r[1] && r[|r| - 1] < 2;
  }

  lemma ForcedPlaces<T>(p: T, c: T, q: T, r: seq<nat>, u: seq<nat>)
    requires p != q && p != c && c != q && Aligned([p, p, c, q, q], [q, q, c], r, u)
    ensures |u| == |r| && Ascending(u) && Ascending(r)
    ensures forall k :: 0 <= k < |r| ==> u[k] >= 2 && (r[k] == 2 <==> u[k] == 2) && r[k] <= 2
  {
    forall k | 0 <= k < |r| ensures u[k] >= 2 && (r[k] == 2 <==> u[k] == 2) {
      assert [p, p, c, q, q][u[k]] == [q, q, c][r[k]];
    }
  }

  lemma ForcedMistake<T>(p: T, c: T, q: T, alike: (T, T) -> bool)
    requires p != q && p != c && c != q && alike(p, q)
    ensures Mistakes([p, p, c, q, q], [q, q, c], [0, 1], alike)
  {
    var a, b, s := [p, p, c, q, q], [q, q, c], [0, 1];
    assert Places(a, b, s, alike, 0) == [];
    assert Places(a, b, s, alike, 1) == [0];
    assert Places(a, b, s, alike, 2) == [0, 1];
  }

  /** Whichever algorithm is used, diff() does not return the best parts of these. */
  method MistakenDiff<T(==, !new)>(p: T, c: T, q: T, dynDiff: bool, alike: (T, T) -> bool)
    returns (ad: seq<seq<T>>, bd: seq<seq<T>>)
    requires p != q && p != c && c != q && alike(p, q) && Reflexive(alike)
    ensures !BestParts([p, p, c, q, q], [q, q, c], ad, bd)
  {
    hide BestParts, Mistakes, LongestCommon, Reflexive;
    ghost var s;
    ad, bd, s := DiffArrays([p, p, c, q, q], [q, q, c], false, dynDiff, alike);
    Forced(p, c, q, s);
    ForcedMistake(p, c, q, alike);
  }

  /** Both sequence algorithms, on the same table, return sequences of the same length. */
  method LongestEitherWay(cmptbl: Table, blen: nat) returns (s: seq<nat>, r: seq<nat>)
    requires ValidTable(cmptbl, blen)
    ensures Longest(cmptbl, s) && Longest(cmptbl, r) && |s| == |r|
  {
    s := DiffLongest.DiffLongestSequence(cmptbl, blen);
    r := DiffDyn.DiffDynLongestSequence(cmptbl, blen);
    LongestLength(cmptbl, s, r);
  }
}
