/** What a longest common sequence is, over a compare table.

    Row i of a compare table lists, in ascending order, the positions in b of the
    elements equal to a[i].  A sequence of b-positions is common to a and b when it is
    ascending and its elements can be picked from distinct rows, in row order. */
module LcsSpec {

  type Table = seq<seq<nat>>

  ghost predicate Ascending(s: seq<int>) {
    forall i, j :: 0 <= i < j < |s| ==> s[i] < s[j]
  }

  ghost predicate ValidTable(t: Table, blen: nat) {
    forall i :: 0 <= i < |t| ==> Ascending(t[i]) && forall x :: x in t[i] ==> x < blen
  }

  /** Rows p[0] < p[1] < ... witness that s is a common sequence. */
  ghost predicate Witness(t: Table, s: seq<nat>, p: seq<nat>) {
    && |p| == |s|
    && Ascending(p)
    && Ascending(s)
    && forall k :: 0 <= k < |s| ==> p[k] < |t| && s[k] in t[p[k]]
  }

  ghost predicate Common(t: Table, s: seq<nat>) {
    exists p :: Witness(t, s, p)
  }

  /** s is common, and no common sequence is longer. */
  ghost predicate Longest(t: Table, s: seq<nat>) {
    && Common(t, s)
    && forall r :: Common(t, r) ==> |r| <= |s|
  }

  function Reverse(s: seq<nat>): (r: seq<nat>)
    ensures |r| == |s|
    ensures forall k :: 0 <= k < |s| ==> r[k] == s[|s| - 1 - k]
  {
    if s == [] then [] else Reverse(s[1..]) + [s[0]]
  }

  // ---- The two recursive readings of "common" that the algorithms follow ----

  /** s, read backwards, is a common sequence of the first n rows. */
  ghost predicate Down(t: Table, n: nat, s: seq<nat>)
    requires n <= |t|
    decreases n, 0
  {
    || s == []
    || (n > 0 && (Down(t, n - 1, s) || DownStep(t, n - 1, s)))
  }

  /** s[0] is taken from row n, the rest from earlier rows. */
  ghost predicate DownStep(t: Table, n: nat, s: seq<nat>)
    requires n < |t|
    decreases n, 1
  {
    && s != []
    && s[0] in t[n]
    && (|s| > 1 ==> s[1] < s[0])
    && Down(t, n, s[1..])
  }

  /** s is a common sequence of the rows from n on. */
  ghost predicate Up(t: Table, n: nat, s: seq<nat>)
    requires n <= |t|
    decreases |t| - n
  {
    || s == []
    || (n < |t| && (Up(t, n + 1, s) || UpStep(t, n, s)))
  }

  /** s[0] is taken from row n, the rest from later rows. */
  ghost predicate UpStep(t: Table, n: nat, s: seq<nat>)
    requires n < |t|
    decreases |t| - n, 0
  {
    && s != []
    && s[0] in t[n]
    && (|s| > 1 ==> s[0] < s[1])
    && Up(t, n + 1, s[1..])
  }

  lemma {:induction false} DownToWitness(t: Table, n: nat, s: seq<nat>) returns (p: seq<nat>)
    requires n <= |t| && Down(t, n, s)
    ensures Witness(t, Reverse(s), p)
    ensures forall k :: 0 <= k < |p| ==> p[k] < n
    decreases n
  {
    if s == [] {
      p := [];
    } else if Down(t, n - 1, s) {
      p := DownToWitness(t, n - 1, s);
    } else {
      var q := DownToWitness(t, n - 1, s[1..]);
      p := q + [n - 1];
      var r := Reverse(s[1..]);
      assert Reverse(s) == r + [s[0]];
      assert |s| > 1 ==> r[|r| - 1] == s[1];
      assert Ascending(r + [s[0]]);
    }
  }

  lemma {:induction false} WitnessToDown(t: Table, n: nat, s: seq<nat>, p: seq<nat>)
    requires n <= |t| && Witness(t, Reverse(s), p)
    requires forall k :: 0 <= k < |p| ==> p[k] < n
    ensures Down(t, n, s)
    decreases n
  {
    if s != [] {
      var m := |s| - 1;
      var r := Reverse(s);
      assert r[m] == s[0] && r[m] in t[p[m]];
      if p[m] == n - 1 {
        assert Reverse(s[1..]) == r[..m];
        assert |s| > 1 ==> s[1] == r[m - 1];
        WitnessToDown(t, n - 1, s[1..], p[..m]);
      } else {
        forall k | 0 <= k < |p| ensures p[k] < n - 1 {
          assert k < m ==> p[k] < p[m];
        }
        WitnessToDown(t, n - 1, s, p);
      }
    }
  }

  lemma ReverseTwice(s: seq<nat>)
    ensures Reverse(Reverse(s)) == s
  {
  }

  /** Backward reading over all rows is exactly "common". */
  lemma DownIsCommon(t: Table, s: seq<nat>)
    ensures Down(t, |t|, s) <==> Common(t, Reverse(s))
  {
    if Down(t, |t|, s) {
      var p := DownToWitness(t, |t|, s);
    }
    if Common(t, Reverse(s)) {
      var p :| Witness(t, Reverse(s), p);
      WitnessToDown(t, |t|, s, p);
    }
  }

  lemma {:induction false} UpToWitness(t: Table, n: nat, s: seq<nat>) returns (p: seq<nat>)
    requires n <= |t| && Up(t, n, s)
    ensures Witness(t, s, p)
    ensures forall k :: 0 <= k < |p| ==> n <= p[k]
    decreases |t| - n
  {
    if s == [] {
      p := [];
    } else if Up(t, n + 1, s) {
      p := UpToWitness(t, n + 1, s);
    } else {
      var q := UpToWitness(t, n + 1, s[1..]);
      p := [n] + q;
    }
  }

  lemma {:induction false} WitnessToUp(t: Table, n: nat, s: seq<nat>, p: seq<nat>)
    requires n <= |t| && Witness(t, s, p)
    requires forall k :: 0 <= k < |p| ==> n <= p[k]
    ensures Up(t, n, s)
    decreases |t| - n
  {
    if s != [] {
      assert s[0] in t[p[0]];
      if p[0] == n {
        WitnessToUp(t, n + 1, s[1..], p[1..]);
      } else {
        WitnessToUp(t, n + 1, s, p);
      }
    }
  }

  /** Forward reading over all rows is exactly "common". */
  lemma UpIsCommon(t: Table, s: seq<nat>)
    ensures Up(t, 0, s) <==> Common(t, s)
  {
    if Up(t, 0, s) {
      var p := UpToWitness(t, 0, s);
    }
    if Common(t, s) {
      var p :| Witness(t, s, p);
      WitnessToUp(t, 0, s, p);
    }
  }

  /** The result of a search kept on backward-read sequences is a longest one. */
  lemma LongestFromDown(t: Table, s: seq<nat>)
    requires Down(t, |t|, s)
    requires forall r :: Down(t, |t|, r) ==> |r| <= |s|
    ensures Longest(t, Reverse(s))
  {
    DownIsCommon(t, s);
    forall r | Common(t, r) ensures |r| <= |s| {
      ReverseTwice(r);
      DownIsCommon(t, Reverse(r));
    }
  }

  /** Any two longest common sequences have the same length. */
  lemma LongestLength(t: Table, s: seq<nat>, r: seq<nat>)
    requires Longest(t, s) && Longest(t, r)
    ensures |s| == |r|
  {
  }

  // ---- Compare tables of two arrays ----

  ghost predicate IsTableOf<T>(t: Table, a: seq<T>, b: seq<T>) {
    && |t| == |a|
    && ValidTable(t, |b|)
    && forall i, j :: 0 <= i < |a| && 0 <= j < |b| ==> (j in t[i] <==> b[j] == a[i])
  }

  /** s lists b-positions, p a-positions, both ascending, of pairwise equal elements. */
  ghost predicate Aligned<T>(a: seq<T>, b: seq<T>, s: seq<nat>, p: seq<nat>) {
    && |p| == |s|
    && Ascending(p)
    && Ascending(s)
    && forall k :: 0 <= k < |s| ==> p[k] < |a| && s[k] < |b| && a[p[k]] == b[s[k]]
  }

  ghost predicate CommonSubsequence<T>(a: seq<T>, b: seq<T>, s: seq<nat>) {
    exists p :: Aligned(a, b, s, p)
  }

  /** Common over the compare table of a and b means common to a and b. */
  lemma TableMeaning<T>(t: Table, a: seq<T>, b: seq<T>, s: seq<nat>)
    requires IsTableOf(t, a, b)
    ensures Common(t, s) <==> CommonSubsequence(a, b, s)
  {
    if Common(t, s) {
      var p :| Witness(t, s, p);
      assert forall k :: 0 <= k < |s| ==> s[k] in t[p[k]] && s[k] < |b|;
      assert Aligned(a, b, s, p);
    }
    if CommonSubsequence(a, b, s) {
      var p :| Aligned(a, b, s, p);
      assert Witness(t, s, p);
    }
  }
}
