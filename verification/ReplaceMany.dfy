/** Replacing many strings at once: a sorted vector of keys, linked into a prefix forest, searched
    by a bisection that jumps along the forest. */
module ReplaceMany {
  import opened Strings
  import opened Basics

  // ---- The prefix forest ----

  ghost predicate Ordered(keys: seq<Str>) {
    forall i, j :: 0 <= i < j < |keys| ==> !Less(keys[j], keys[i])
  }

  /** No key that occurs twice begins another key or is begun by one. */
  ghost predicate Harmless(ks: multiset<Str>) {
    forall x, y :: x in ks && y in ks && x < y ==> ks[x] == 1 && ks[y] == 1
  }

  ghost predicate Sorted(keys: seq<Str>) {
    Ordered(keys) && Harmless(multiset(keys))
  }

  lemma CountTwice(keys: seq<Str>, i: nat, j: nat)
    requires i < j < |keys| && keys[i] == keys[j]
    ensures multiset(keys)[keys[i]] >= 2
  {
    assert keys == keys[..j] + [keys[j]] + keys[j + 1..];
    assert keys[i] == keys[..j][i];
  }

  /** In a sorted vector a key that begins another one, or is begun by one, occurs once. */
  lemma OnlyOnce(keys: seq<Str>, i: nat, j: nat, k: nat)
    requires Sorted(keys) && i < |keys| && j < |keys| && k < |keys| && keys[i] < keys[j]
    ensures (keys[k] == keys[i] ==> k == i) && (keys[k] == keys[j] ==> k == j)
  {
    assert keys[i] in multiset(keys) && keys[j] in multiset(keys);
    if k != i && keys[k] == keys[i] {
      CountTwice(keys, if k < i then k else i, if k < i then i else k);
    }
    if k != j && keys[k] == keys[j] {
      CountTwice(keys, if k < j then k else j, if k < j then j else k);
    }
  }

  /** prefix[e] is the longest key that is a proper prefix of key e, or -1. */
  ghost predicate ParentOk(keys: seq<Str>, prefix: seq<int>, e: nat)
    requires |prefix| <= |keys| && e < |prefix|
  {
    && -1 <= prefix[e] < e
    && (prefix[e] >= 0 ==> keys[prefix[e]] < keys[e])
    && (forall k :: 0 <= k < e && keys[k] < keys[e] ==> prefix[e] >= 0 && k <= prefix[e])
  }

  ghost predicate Forest(keys: seq<Str>, prefix: seq<int>)
    requires |prefix| <= |keys|
  {
    forall e :: 0 <= e < |prefix| ==> ParentOk(keys, prefix, e)
  }

  /** Flags of the keys that some key has as its parent. */
  ghost predicate Flags(prefix: seq<int>, isPrefix: seq<bool>) {
    forall d :: 0 <= d < |isPrefix| ==> (isPrefix[d] <==> d in prefix)
  }

  ghost predicate Backwards(prefix: seq<int>) {
    forall e :: 0 <= e < |prefix| ==> -1 <= prefix[e] < e
  }

  /** Every link leads to a proper prefix. */
  ghost predicate Sound(keys: seq<Str>, prefix: seq<int>)
    requires |prefix| <= |keys|
  {
    Backwards(prefix) && forall e :: 0 <= e < |prefix| && prefix[e] >= 0 ==> keys[prefix[e]] < keys[e]
  }

  /** Among the keys lo..hi, r is the longest that begins the text t; -1 when none does. */
  ghost predicate LongestIn(keys: seq<Str>, lo: nat, hi: nat, t: Str, r: int)
    requires hi <= |keys|
  {
    && (r == -1 || (lo <= r < hi && keys[r] <= t))
    && (forall k :: lo <= k < hi && keys[k] <= t ==> r >= 0 && |keys[k]| <= |keys[r]|)
  }

  /** A key that begins t and is not above key c, while c is below t, begins c as well. */
  lemma PrefixOfBelow(keys: seq<Str>, k: nat, c: nat, t: Str)
    requires Ordered(keys) && k <= c < |keys| && keys[k] <= t && Less(keys[c], t)
    ensures keys[k] <= keys[c]
  {
    Total(keys[k], keys[c]);
    PrefixBetween(keys[k], keys[c], t);
  }

  /** Prefixes among the keys come in the order of the vector. */
  lemma PrefixIndex(keys: seq<Str>, i: nat, j: nat)
    requires Ordered(keys) && i < |keys| && j < |keys| && keys[i] < keys[j]
    ensures i < j
  {
    PrefixLess(keys[i], keys[j]);
    Total(keys[i], keys[j]);
  }

  /** Every key that is a prefix of key c is c itself, its parent, or a prefix of its parent. */
  lemma ParentCovers(keys: seq<Str>, prefix: seq<int>, c: nat, k: nat)
    requires Ordered(keys) && |prefix| == |keys| && Forest(keys, prefix) && c < |keys| && k < |keys|
    requires keys[k] < keys[c]
    ensures 0 <= prefix[c] < c && k <= prefix[c] && keys[k] <= keys[prefix[c]]
  {
    PrefixIndex(keys, k, c);
    assert ParentOk(keys, prefix, c);
    var d := prefix[c];
    if k < d && |keys[k]| > |keys[d]| {
      PrefixesNest(keys[d], keys[k], keys[c]);
      PrefixIndex(keys, d, k);
    }
    if k != d {
      PrefixesNest(keys[k], keys[d], keys[c]);
    }
  }

  /** A key that is a proper prefix of some key is flagged. */
  lemma {:induction false} ExtendedIsFlagged(keys: seq<Str>, prefix: seq<int>, isPrefix: seq<bool>, c: nat, k: nat)
    requires Sorted(keys) && |prefix| == |isPrefix| == |keys| && Forest(keys, prefix) && Flags(prefix, isPrefix)
    requires c < |keys| && k < |keys| && keys[c] < keys[k]
    ensures isPrefix[c]
    decreases k
  {
    ParentCovers(keys, prefix, k, c);
    var d := prefix[k];
    if d != c {
      OnlyOnce(keys, c, k, d);
      ExtendedIsFlagged(keys, prefix, isPrefix, c, d);
    } else {
      assert prefix[k] in prefix;
    }
  }

  /** How a key compares with the text cut to its length. */
  function Compare(key: Str, t: Str): int {
    BinaryPrefix(key, t[..if |t| < |key| then |t| else |key|])
  }

  /** Comparing a key with the text cut to its length tells how the key relates to the text. */
  lemma CompareCut(key: Str, t: Str)
    ensures var tmp, q := Compare(key, t), Common(key, t);
            && (tmp == 0 <==> key <= t)
            && (tmp < 0 ==> Less(key, t) && -tmp - 1 == q < |key|)
            && (tmp > 0 ==> Less(t, key) && tmp - 1 == q < |key|)
  {
    var n := if |t| < |key| then |t| else |key|;
    var cut := t[..n];
    CommonIs(key, t);
    var q := Common(key, t);
    assert cut[..q] == t[..q];
    CommonUnique(key, cut, q);
    LessAtCommon(key, cut);
    LessAtCommon(key, t);
    LessAtCommon(t, key);
    CommonUnique(t, key, q);
    if q == |key| {
      assert key[..q] == key;
    }
  }

  /** What the bisection keeps: the best match so far lies below a, and every key beginning the
      text with a longer match lies in a..b. */
  ghost predicate Candidates(keys: seq<Str>, lo: nat, hi: nat, t: Str, a: int, b: int, match_: int, len: int)
    requires hi <= |keys|
  {
    && lo <= a <= b <= hi
    && (match_ == -1 ==> len == -1)
    && (match_ != -1 ==> lo <= match_ < a && keys[match_] <= t && len == |keys[match_]|)
    && match_ >= -1
    && (forall k :: lo <= k < hi && keys[k] <= t && |keys[k]| > len ==> a <= k < b)
  }

  /** A key no longer than the match, above it, cannot be followed by a longer match. */
  lemma CutShort(keys: seq<Str>, lo: nat, hi: nat, t: Str, a: int, b: int, c: int, match_: int, len: int)
    requires hi <= |keys| && Sorted(keys) && Candidates(keys, lo, hi, t, a, b, match_, len)
    requires a <= c < b && |keys[c]| <= len
    ensures Candidates(keys, lo, hi, t, a, c, match_, len)
  {
    forall k | lo <= k < hi && keys[k] <= t && |keys[k]| > len ensures k < c {
      if k >= c {
        PrefixesNest(keys[match_], keys[k], t);
        Total(keys[match_], keys[c]);
        Total(keys[c], keys[k]);
        PrefixBetween(keys[match_], keys[c], keys[k]);
        OnlyOnce(keys, match_, k, c);
      }
    }
  }

  // ---- The search ----

  /** The nearest key shorter than bound on the way up from d, while the keys lie from a on and are
      longer than len. */
  function Ancestor(keys: seq<Str>, prefix: seq<int>, d: int, a: nat, len: int, bound: int): (r: int)
    requires -1 <= d < |prefix| == |keys| && Backwards(prefix)
    ensures r == -1 || a <= r <= d
    decreases d + 1
  {
    if d < a || |keys[d]| <= len then -1
    else if |keys[d]| < bound then d
    else Ancestor(keys, prefix, prefix[d], a, len, bound)
  }

  /** From key b, which is above the text, up to the nearest ancestor shorter than tmp and above a, or -1;
      and the last key passed on the way. */
  function Descend(keys: seq<Str>, prefix: seq<int>, b: nat, a: nat, tmp: int): (r: (nat, int))
    requires a <= b < |prefix| == |keys| && Backwards(prefix)
    ensures a <= r.0 <= b && (r.1 == -1 || a < r.1 < r.0)
    decreases b
  {
    var c := prefix[b];
    if c <= a then (b, -1)
    else if |keys[c]| < tmp then (b, c)
    else Descend(keys, prefix, c, a, tmp)
  }

  /** One round of the search: it is over, or goes on with other bounds and another match. */
  datatype Round = Stop(r: int) | Go(a: nat, b: nat, match_: int, len: int)

  /** Key c is below the text: one of its ancestors may begin it. */
  function Below(keys: seq<Str>, prefix: seq<int>, s: Round, c: nat, tmp: int): (n: Round)
    requires |prefix| == |keys| && Backwards(prefix) && s.Go? && s.a <= c < s.b <= |keys|
    ensures n.Go? && n.a == c + 1 && n.b == s.b && (n.match_ == s.match_ || s.a <= n.match_ < c)
  {
    var d := if -tmp - 1 > s.len then Ancestor(keys, prefix, prefix[c], s.a, s.len, -tmp) else -1;
    if d >= 0 then Go(c + 1, s.b, d, |keys[d]|) else s.(a := c + 1)
  }

  /** Key c is above the text: the upper end moves down, to an ancestor that begins it if there is one. */
  function Above(keys: seq<Str>, prefix: seq<int>, s: Round, c: nat, tmp: int): (n: Round)
    requires |prefix| == |keys| && Backwards(prefix) && s.Go? && s.a <= c < s.b <= |keys|
    ensures n.Go? && s.a <= n.a <= n.b <= c && (n.match_ == s.match_ || s.a <= n.match_ < c)
  {
    var (e, found) := Descend(keys, prefix, c, s.a, tmp);
    if found == -1 then s.(b := e)
    else if |keys[found]| > s.len then Go(found + 1, e, found, |keys[found]|)
    else s.(a := found + 1, b := e)
  }

  function Step(t: Str, keys: seq<Str>, prefix: seq<int>, isPrefix: seq<bool>, s: Round): (n: Round)
    requires |prefix| == |isPrefix| == |keys| && Backwards(prefix) && s.Go? && s.a < s.b <= |keys|
    ensures n.Stop? ==> s.a <= n.r < s.b
    ensures n.Go? ==> s.a <= n.a <= n.b <= s.b && n.b - n.a < s.b - s.a
    ensures n.Go? ==> n.match_ == s.match_ || s.a <= n.match_ < s.b
  {
    var c := (s.a + s.b) / 2;
    if |keys[c]| <= s.len then s.(b := c)
    else
      var tmp := Compare(keys[c], t);
      if tmp < 0 then Below(keys, prefix, s, c, tmp)
      else if tmp > 0 then Above(keys, prefix, s, c, tmp)
      else if !isPrefix[c] then Stop(c)
      else Go(c + 1, s.b, c, |keys[c]|)
  }

  /** What the search returns from state s on, whatever the links are. */
  function Search(t: Str, keys: seq<Str>, prefix: seq<int>, isPrefix: seq<bool>, s: Round): (r: int)
    requires |prefix| == |isPrefix| == |keys| && Backwards(prefix) && (s.Go? ==> s.a <= s.b <= |keys|)
    ensures s.Go? ==> r == s.match_ || s.a <= r < s.b
    decreases if s.Go? then s.b - s.a + 1 else 0
  {
    if s.Stop? then s.r
    else if s.a == s.b then s.match_
    else Search(t, keys, prefix, isPrefix, Step(t, keys, prefix, isPrefix, s))
  }

  /** Going up from d. */
  method SearchUp(keys: seq<Str>, prefix: seq<int>, start: int, a: nat, len: int, bound: int) returns (d: int)
    requires -1 <= start < |prefix| == |keys| && Backwards(prefix)
    ensures d == Ancestor(keys, prefix, start, a, len, bound)
  {
    d := start;
    while d >= a && |keys[d]| > len
      invariant -1 <= d <= start
      invariant Ancestor(keys, prefix, d, a, len, bound) == Ancestor(keys, prefix, start, a, len, bound)
      decreases d + 1
    {
      if |keys[d]| < bound {
        return;
      }
      d := prefix[d];
    }
    d := -1;
  }

  /** Moving the upper end down. */
  method JumpDown(keys: seq<Str>, prefix: seq<int>, start: nat, a: nat, tmp: int) returns (b: nat, found: int)
    requires a <= start < |prefix| == |keys| && Backwards(prefix)
    ensures (b, found) == Descend(keys, prefix, start, a, tmp)
  {
    b := start;
    var c := prefix[b];
    while c > a
      invariant a <= b <= start && c == prefix[b]
      invariant Descend(keys, prefix, b, a, tmp) == Descend(keys, prefix, start, a, tmp)
      decreases b
    {
      if |keys[c]| < tmp {
        return b, c;
      }
      b := c;
      c := prefix[b];
    }
    found := -1;
  }

  /** A key below the text. */
  method LookBelow(keys: seq<Str>, prefix: seq<int>, s: Round, c: nat, tmp: int) returns (n: Round)
    requires |prefix| == |keys| && Backwards(prefix) && s.Go? && s.a <= c < s.b <= |keys|
    ensures n == Below(keys, prefix, s, c, tmp)
  {
    n := s.(a := c + 1);
    if -tmp - 1 > s.len {
      var d := SearchUp(keys, prefix, prefix[c], s.a, s.len, -tmp);
      if d >= 0 {
        n := Go(c + 1, s.b, d, |keys[d]|);
      }
    }
  }

  /** A key above the text. */
  method LookAbove(keys: seq<Str>, prefix: seq<int>, s: Round, c: nat, tmp: int) returns (n: Round)
    requires |prefix| == |keys| && Backwards(prefix) && s.Go? && s.a <= c < s.b <= |keys|
    ensures n == Above(keys, prefix, s, c, tmp)
  {
    var b, found := JumpDown(keys, prefix, c, s.a, tmp);
    if found == -1 {
      n := s.(b := b);
    } else if |keys[found]| > s.len {
      n := Go(found + 1, b, found, |keys[found]|);
    } else {
      n := s.(a := found + 1, b := b);
    }
  }

  /** The body of the loop. */
  method OneRound(t: Str, keys: seq<Str>, prefix: seq<int>, isPrefix: seq<bool>, s: Round) returns (n: Round)
    requires |prefix| == |isPrefix| == |keys| && Backwards(prefix) && s.Go? && s.a < s.b <= |keys|
    ensures n == Step(t, keys, prefix, isPrefix, s)
  {
    var c := (s.a + s.b) / 2;
    if |keys[c]| <= s.len {
      return s.(b := c);
    }
    CompareIs(keys[c], t);
    hide Compare, Below, Above;
    var tmp := FindBinaryPrefix(keys[c], t[..if |t| < |keys[c]| then |t| else |keys[c]|]);
    if tmp < 0 {
      n := LookBelow(keys, prefix, s, c, tmp);
    } else if tmp > 0 {
      n := LookAbove(keys, prefix, s, c, tmp);
    } else if !isPrefix[c] {
      n := Stop(c);
    } else {
      n := Go(c + 1, s.b, c, |keys[c]|);
    }
  }

  /** The search over the keys lo..hi: for sorted keys with the right links and flags it finds the longest
      one that begins the text. */
  method FindLongestPrefix(t: Str, keys: seq<Str>, prefix: seq<int>, isPrefix: seq<bool>, lo: nat, hi: nat)
    returns (r: int)
    requires lo <= hi <= |keys| == |prefix| == |isPrefix| && Backwards(prefix)
    ensures r == Search(t, keys, prefix, isPrefix, Go(lo, hi, -1, -1))
    ensures Sorted(keys) && Forest(keys, prefix) && Flags(prefix, isPrefix) ==> LongestIn(keys, lo, hi, t, r)
  {
    if Sorted(keys) && Forest(keys, prefix) && Flags(prefix, isPrefix) {
      SearchIsLongest(keys, prefix, isPrefix, lo, hi, t, Go(lo, hi, -1, -1));
    }
    hide Sorted, Forest, Flags, LongestIn, Step, Search;
    var s := Go(lo, hi, -1, -1);
    while s.Go? && s.a < s.b
      invariant s.Go? ==> lo <= s.a <= s.b <= hi
      invariant Search(t, keys, prefix, isPrefix, Go(lo, hi, -1, -1)) == Search(t, keys, prefix, isPrefix, s)
      decreases if s.Go? then s.b - s.a + 1 else 0
    {
      SearchRound(t, keys, prefix, isPrefix, s);
      s := OneRound(t, keys, prefix, isPrefix, s);
    }
    SearchOver(t, keys, prefix, isPrefix, s);
    r := if s.Stop? then s.r else s.match_;
  }

  lemma CompareIs(key: Str, t: Str)
    ensures Compare(key, t) == BinaryPrefix(key, t[..if |t| < |key| then |t| else |key|])
  {
  }

  lemma SearchRound(t: Str, keys: seq<Str>, prefix: seq<int>, isPrefix: seq<bool>, s: Round)
    requires |prefix| == |isPrefix| == |keys| && Backwards(prefix) && s.Go? && s.a < s.b <= |keys|
    ensures Search(t, keys, prefix, isPrefix, s) ==
            Search(t, keys, prefix, isPrefix, Step(t, keys, prefix, isPrefix, s))
  {
  }

  lemma SearchOver(t: Str, keys: seq<Str>, prefix: seq<int>, isPrefix: seq<bool>, s: Round)
    requires |prefix| == |isPrefix| == |keys| && Backwards(prefix)
    requires s.Stop? || s.a == s.b <= |keys|
    ensures Search(t, keys, prefix, isPrefix, s) == if s.Stop? then s.r else s.match_
  {
  }

  // ---- The search is right ----

  /** The way up leads to the longest ancestor of key c from a on, longer than len and shorter than bound. */
  lemma {:induction false} AncestorIsLongest(keys: seq<Str>, prefix: seq<int>, c: nat, d: int, a: nat,
                                             len: int, bound: int)
    requires Ordered(keys) && |prefix| == |keys| && Forest(keys, prefix) && Backwards(prefix)
    requires a <= c < |keys| && -1 <= d < c && (d >= 0 ==> keys[d] < keys[c])
    requires forall k :: a <= k < |keys| && keys[k] < keys[c] && len < |keys[k]| < bound ==>
               d >= 0 && k <= d && keys[k] <= keys[d]
    ensures var r := Ancestor(keys, prefix, d, a, len, bound);
      && (r == -1 || (a <= r < c && keys[r] < keys[c] && len < |keys[r]| < bound))
      && (forall k :: a <= k < |keys| && keys[k] < keys[c] && len < |keys[k]| < bound ==>
            r >= 0 && |keys[k]| <= |keys[r]|)
    decreases d + 1
  {
    if d >= a && |keys[d]| > len && |keys[d]| >= bound {
      assert ParentOk(keys, prefix, d);
      forall k | a <= k < |keys| && keys[k] < keys[c] && len < |keys[k]| < bound
        ensures prefix[d] >= 0 && keys[k] <= keys[prefix[d]] && k <= prefix[d]
      {
        ParentCovers(keys, prefix, d, k);
      }
      AncestorIsLongest(keys, prefix, c, prefix[d], a, len, bound);
    }
  }

  /** The key c is below the text: only its ancestors within the common prefix still count. */
  lemma BelowStep(keys: seq<Str>, lo: nat, hi: nat, t: Str, a: int, b: int, c: int, match_: int, len: int, d: int)
    requires hi <= |keys| && Sorted(keys) && Candidates(keys, lo, hi, t, a, b, match_, len)
    requires a <= c < b && Less(keys[c], t) && !(keys[c] <= t)
    requires d == -1 || (a <= d < c && keys[d] < keys[c] && len < |keys[d]| <= Common(keys[c], t))
    requires forall k :: a <= k < |keys| && keys[k] < keys[c] && len < |keys[k]| <= Common(keys[c], t) ==>
               d >= 0 && |keys[k]| <= |keys[d]|
    ensures if d >= 0 then Candidates(keys, lo, hi, t, c + 1, b, d, |keys[d]|)
            else Candidates(keys, lo, hi, t, c + 1, b, match_, len)
  {
    CommonIs(keys[c], t);
    var q := Common(keys[c], t);
    if d >= 0 {
      assert keys[d] == keys[c][..q][..|keys[d]|];
      assert keys[d] <= t;
    }
    forall k | lo <= k <= c && keys[k] <= t ensures keys[k] < keys[c] && |keys[k]| <= q {
      PrefixOfBelow(keys, k, c, t);
      PrefixInCommon(keys[k], keys[c], t);
    }
  }

  /** Moving the upper end down from key b, which is above the text, passes only keys above the text. */
  lemma {:induction false} DescendKeeps(keys: seq<Str>, prefix: seq<int>, lo: nat, hi: nat, t: Str, a: nat, b: nat,
                                        match_: int, len: int, tmp: int)
    requires hi <= |keys| && Ordered(keys) && |prefix| == |keys| && Forest(keys, prefix) && Backwards(prefix)
    requires a <= b < hi && Candidates(keys, lo, hi, t, a, b, match_, len)
    requires Less(t, keys[b]) && tmp - 1 == Common(keys[b], t) < |keys[b]|
    ensures var (e, found) := Descend(keys, prefix, b, a, tmp);
      Candidates(keys, lo, hi, t, a, e, match_, len) && (found != -1 ==> keys[found] <= t)
    decreases b
  {
    var c := prefix[b];
    assert ParentOk(keys, prefix, b);
    CommonIs(keys[b], t);
    if c > a {
      if |keys[c]| < tmp {
        assert keys[c] == keys[b][..tmp - 1][..|keys[c]|];
      } else {
        AncestorAbove(keys[c], keys[b], t, tmp - 1);
        forall k | lo <= k < hi && keys[k] <= t && |keys[k]| > len ensures k < c {
          BeginsBelow(keys, k, c, t);
        }
        DescendKeeps(keys, prefix, lo, hi, t, a, c, match_, len, tmp);
      }
    }
  }

  /** A prefix of key that reaches beyond the common part is above the text at the same place. */
  lemma AncestorAbove(p: Str, key: Str, t: Str, q: nat)
    requires p <= key && Less(t, key) && Common(key, t) == q < |p|
    ensures Less(t, p) && Common(p, t) == q
  {
    CommonIs(key, t);
    CommonUnique(t, key, q);
    LessAtCommon(t, key);
    assert p[..q] == key[..q];
    CommonUnique(p, t, q);
    CommonUnique(t, p, q);
    LessAtCommon(t, p);
  }

  /** A key that begins the text lies below every key above the text. */
  lemma BeginsBelow(keys: seq<Str>, k: nat, c: nat, t: Str)
    requires Ordered(keys) && k < |keys| && c < |keys| && keys[k] <= t && Less(t, keys[c])
    ensures k < c
  {
    if keys[k] != t {
      PrefixLess(keys[k], t);
      Transitive(keys[k], t, keys[c]);
    }
    Total(keys[k], keys[c]);
  }

  /** A jump target is a prefix of every longer match, so those lie above it. */
  lemma JumpStep(keys: seq<Str>, lo: nat, hi: nat, t: Str, a: int, b: int, found: int, match_: int, len: int)
    requires hi <= |keys| && Ordered(keys) && Candidates(keys, lo, hi, t, a, b, match_, len)
    requires a <= found < b && keys[found] <= t
    ensures if |keys[found]| > len then Candidates(keys, lo, hi, t, found + 1, b, found, |keys[found]|)
            else Candidates(keys, lo, hi, t, found + 1, b, match_, len)
  {
    forall k | lo <= k < hi && keys[k] <= t && |keys[k]| > |keys[found]| ensures found < k {
      PrefixesNest(keys[found], keys[k], t);
      PrefixIndex(keys, found, k);
    }
  }

  /** A match that no key extends is the longest of all. */
  lemma Unextended(keys: seq<Str>, prefix: seq<int>, isPrefix: seq<bool>, t: Str, c: nat)
    requires Sorted(keys) && |prefix| == |isPrefix| == |keys| && Forest(keys, prefix) && Flags(prefix, isPrefix)
    requires c < |keys| && keys[c] <= t && !isPrefix[c]
    ensures forall k :: 0 <= k < |keys| && keys[k] <= t ==> |keys[k]| <= |keys[c]|
  {
    forall k | 0 <= k < |keys| && keys[k] <= t ensures |keys[k]| <= |keys[c]| {
      if |keys[k]| > |keys[c]| {
        PrefixesNest(keys[c], keys[k], t);
        ExtendedIsFlagged(keys, prefix, isPrefix, c, k);
      }
    }
  }

  lemma AboveStep(keys: seq<Str>, lo: nat, hi: nat, t: Str, a: int, b: int, c: int, match_: int, len: int)
    requires hi <= |keys| && Ordered(keys) && Candidates(keys, lo, hi, t, a, b, match_, len)
    requires a <= c < b && Less(t, keys[c])
    ensures Candidates(keys, lo, hi, t, a, c, match_, len)
  {
    forall k | lo <= k < hi && keys[k] <= t && |keys[k]| > len ensures k < c {
      BeginsBelow(keys, k, c, t);
    }
  }

  lemma FromParent(keys: seq<Str>, prefix: seq<int>, c: nat, a: nat, len: int, bound: int)
    requires Ordered(keys) && |prefix| == |keys| && Forest(keys, prefix) && Backwards(prefix) && a <= c < |keys|
    ensures var r := Ancestor(keys, prefix, prefix[c], a, len, bound);
      && (r == -1 || (a <= r < c && keys[r] < keys[c] && len < |keys[r]| < bound))
      && (forall k :: a <= k < |keys| && keys[k] < keys[c] && len < |keys[k]| < bound ==>
            r >= 0 && |keys[k]| <= |keys[r]|)
  {
    assert ParentOk(keys, prefix, c);
    forall k | 0 <= k < |keys| && keys[k] < keys[c]
      ensures prefix[c] >= 0 && k <= prefix[c] && keys[k] <= keys[prefix[c]]
    {
      ParentCovers(keys, prefix, c, k);
    }
    AncestorIsLongest(keys, prefix, c, prefix[c], a, len, bound);
  }

  /** A key below the text: its longest ancestor that begins the text may be a better match. */
  lemma StepBelow(keys: seq<Str>, prefix: seq<int>, lo: nat, hi: nat, t: Str, s: Round, c: nat)
    requires Sorted(keys) && |prefix| == |keys| && Forest(keys, prefix) && Backwards(prefix)
    requires hi <= |keys| && Kept(keys, lo, hi, t, s) && s.a <= c < s.b && Compare(keys[c], t) < 0
    ensures Kept(keys, lo, hi, t, Below(keys, prefix, s, c, Compare(keys[c], t)))
  {
    var tmp := Compare(keys[c], t);
    CompareCut(keys[c], t);
    hide Compare, Less, Common;
    FromParent(keys, prefix, c, s.a, s.len, -tmp);
    hide Forest, Ancestor;
    var d := if -tmp - 1 > s.len then Ancestor(keys, prefix, prefix[c], s.a, s.len, -tmp) else -1;
    BelowStep(keys, lo, hi, t, s.a, s.b, c, s.match_, s.len, d);
  }

  /** A key above the text: the upper end moves down, and the ancestor it stops at is a match. */
  lemma StepAbove(keys: seq<Str>, prefix: seq<int>, lo: nat, hi: nat, t: Str, s: Round, c: nat)
    requires Sorted(keys) && |prefix| == |keys| && Forest(keys, prefix) && Backwards(prefix)
    requires hi <= |keys| && Kept(keys, lo, hi, t, s) && s.a <= c < s.b && Compare(keys[c], t) > 0
    ensures Kept(keys, lo, hi, t, Above(keys, prefix, s, c, Compare(keys[c], t)))
  {
    var tmp := Compare(keys[c], t);
    CompareCut(keys[c], t);
    hide Compare, Less, Common;
    AboveStep(keys, lo, hi, t, s.a, s.b, c, s.match_, s.len);
    DescendKeeps(keys, prefix, lo, hi, t, s.a, c, s.match_, s.len, tmp);
    var (e, found) := Descend(keys, prefix, c, s.a, tmp);
    if found != -1 {
      JumpStep(keys, lo, hi, t, s.a, e, found, s.match_, s.len);
    }
  }

  ghost predicate Kept(keys: seq<Str>, lo: nat, hi: nat, t: Str, s: Round) {
    hi <= |keys| && s.Go? && Candidates(keys, lo, hi, t, s.a, s.b, s.match_, s.len)
  }

  /** A key no longer than the match, or one that begins the text and is begun by others. */
  lemma StepNear(keys: seq<Str>, lo: nat, hi: nat, t: Str, s: Round, c: nat)
    requires Sorted(keys) && Kept(keys, lo, hi, t, s) && s.a <= c < s.b
    ensures |keys[c]| <= s.len ==> Kept(keys, lo, hi, t, s.(b := c))
    ensures |keys[c]| > s.len && keys[c] <= t ==> Kept(keys, lo, hi, t, Go(c + 1, s.b, c, |keys[c]|))
  {
    if |keys[c]| <= s.len {
      CutShort(keys, lo, hi, t, s.a, s.b, c, s.match_, s.len);
    } else if keys[c] <= t {
      JumpStep(keys, lo, hi, t, s.a, s.b, c, s.match_, s.len);
    }
  }

  /** A round loses no longer match, and stops only at the longest. */
  lemma StepKeeps(keys: seq<Str>, prefix: seq<int>, isPrefix: seq<bool>, lo: nat, hi: nat, t: Str, s: Round)
    requires Sorted(keys) && |prefix| == |isPrefix| == |keys| && Forest(keys, prefix) && Flags(prefix, isPrefix)
    requires Backwards(prefix) && Kept(keys, lo, hi, t, s) && s.a < s.b <= hi <= |keys| && s.a >= lo
    ensures var n := Step(t, keys, prefix, isPrefix, s);
      if n.Stop? then hi <= |keys| && LongestIn(keys, lo, hi, t, n.r) else Kept(keys, lo, hi, t, n)
  {
    var c := (s.a + s.b) / 2;
    StepNear(keys, lo, hi, t, s, c);
    CompareCut(keys[c], t);
    hide Sorted, Forest, Flags, Compare, Less, Common, Below, Above, Kept, Backwards;
    if |keys[c]| > s.len {
      if Compare(keys[c], t) < 0 {
        StepBelow(keys, prefix, lo, hi, t, s, c);
      } else if Compare(keys[c], t) > 0 {
        StepAbove(keys, prefix, lo, hi, t, s, c);
      } else if !isPrefix[c] {
        Unextended(keys, prefix, isPrefix, t, c);
      }
    }
  }

  /** With sorted keys and the right links and flags the search finds the longest key that begins the text. */
  lemma {:induction false} SearchIsLongest(keys: seq<Str>, prefix: seq<int>, isPrefix: seq<bool>, lo: nat, hi: nat,
                                           t: Str, s: Round)
    requires Sorted(keys) && |prefix| == |isPrefix| == |keys| && Forest(keys, prefix) && Flags(prefix, isPrefix)
    requires Backwards(prefix) && hi <= |keys| && Kept(keys, lo, hi, t, s)
    ensures LongestIn(keys, lo, hi, t, Search(t, keys, prefix, isPrefix, s))
    decreases s.b - s.a
  {
    if s.a < s.b {
      hide Sorted, Forest, Flags;
      SearchRound(t, keys, prefix, isPrefix, s);
      StepKeeps(keys, prefix, isPrefix, lo, hi, t, s);
      var n := Step(t, keys, prefix, isPrefix, s);
      hide Step;
      if n.Go? {
        SearchIsLongest(keys, prefix, isPrefix, lo, hi, t, n);
      }
    }
  }

  // ---- Every hit begins the text ----

  lemma {:induction false} AncestorBegins(keys: seq<Str>, prefix: seq<int>, c: nat, d: int, a: nat, len: int,
                                          bound: int)
    requires |prefix| == |keys| && Sound(keys, prefix) && c < |keys| && -1 <= d < |keys| &&
             (d >= 0 ==> keys[d] <= keys[c])
    ensures var r := Ancestor(keys, prefix, d, a, len, bound);
      r >= 0 ==> keys[r] <= keys[c] && |keys[r]| < bound
    decreases d + 1
  {
    if d >= a && |keys[d]| > len && |keys[d]| >= bound {
      AncestorBegins(keys, prefix, c, prefix[d], a, len, bound);
    }
  }

  lemma {:induction false} DescendBegins(keys: seq<Str>, prefix: seq<int>, c: nat, b: nat, a: nat, tmp: int)
    requires |prefix| == |keys| && Sound(keys, prefix) && c < |keys| && a <= b < |keys| && keys[b] <= keys[c]
    ensures var r := Descend(keys, prefix, b, a, tmp).1;
      r != -1 ==> keys[r] <= keys[c] && |keys[r]| < tmp
    decreases b
  {
    if prefix[b] > a && |keys[prefix[b]]| >= tmp {
      DescendBegins(keys, prefix, c, prefix[b], a, tmp);
    }
  }

  /** A prefix of key that lies within its common prefix with the text. */
  lemma WithinCommon(p: Str, key: Str, t: Str)
    requires p <= key && |p| <= Common(key, t)
    ensures p <= t
  {
    CommonIs(key, t);
    assert p == key[..Common(key, t)][..|p|];
  }

  /** The match, if there is one, begins the text. */
  ghost predicate MatchBegins(t: Str, keys: seq<Str>, m: int) {
    -1 <= m < |keys| && (m >= 0 ==> keys[m] <= t)
  }

  lemma BelowBegins(t: Str, keys: seq<Str>, prefix: seq<int>, s: Round, c: nat)
    requires |prefix| == |keys| && Sound(keys, prefix) && s.Go? && s.a <= c < s.b <= |keys|
    requires MatchBegins(t, keys, s.match_) && Compare(keys[c], t) < 0
    ensures MatchBegins(t, keys, Below(keys, prefix, s, c, Compare(keys[c], t)).match_)
  {
    var tmp := Compare(keys[c], t);
    CompareCut(keys[c], t);
    hide Compare, Less, Common, Ancestor;
    AncestorBegins(keys, prefix, c, prefix[c], s.a, s.len, -tmp);
    var d := Ancestor(keys, prefix, prefix[c], s.a, s.len, -tmp);
    if d >= 0 {
      WithinCommon(keys[d], keys[c], t);
    }
  }

  lemma AboveBegins(t: Str, keys: seq<Str>, prefix: seq<int>, s: Round, c: nat)
    requires |prefix| == |keys| && Sound(keys, prefix) && s.Go? && s.a <= c < s.b <= |keys|
    requires MatchBegins(t, keys, s.match_) && Compare(keys[c], t) > 0
    ensures MatchBegins(t, keys, Above(keys, prefix, s, c, Compare(keys[c], t)).match_)
  {
    var tmp := Compare(keys[c], t);
    CompareCut(keys[c], t);
    hide Compare, Less, Common, Descend;
    DescendBegins(keys, prefix, c, c, s.a, tmp);
    var found := Descend(keys, prefix, c, s.a, tmp).1;
    if found != -1 {
      WithinCommon(keys[found], keys[c], t);
    }
  }

  lemma StepBegins(t: Str, keys: seq<Str>, prefix: seq<int>, isPrefix: seq<bool>, s: Round)
    requires |prefix| == |isPrefix| == |keys| && Sound(keys, prefix) && s.Go? && s.a < s.b <= |keys|
    requires MatchBegins(t, keys, s.match_)
    ensures var n := Step(t, keys, prefix, isPrefix, s);
      MatchBegins(t, keys, if n.Stop? then n.r else n.match_)
  {
    var c := (s.a + s.b) / 2;
    CompareCut(keys[c], t);
    hide Compare, Below, Above;
    if Compare(keys[c], t) < 0 {
      BelowBegins(t, keys, prefix, s, c);
    } else if Compare(keys[c], t) > 0 {
      AboveBegins(t, keys, prefix, s, c);
    }
  }

  /** As long as links lead to prefixes, whatever the search returns begins the text. */
  lemma {:induction false} SearchBegins(t: Str, keys: seq<Str>, prefix: seq<int>, isPrefix: seq<bool>, s: Round)
    requires |prefix| == |isPrefix| == |keys| && Sound(keys, prefix) && s.Go? && s.a <= s.b <= |keys|
    requires MatchBegins(t, keys, s.match_)
    ensures MatchBegins(t, keys, Search(t, keys, prefix, isPrefix, s))
    decreases s.b - s.a
  {
    if s.a < s.b {
      SearchRound(t, keys, prefix, isPrefix, s);
      StepBegins(t, keys, prefix, isPrefix, s);
      var n := Step(t, keys, prefix, isPrefix, s);
      hide Step, Sound, MatchBegins;
      if n.Go? {
        SearchBegins(t, keys, prefix, isPrefix, n);
      }
    }
  }

  // ---- Compiling the keys ----

  datatype Tuple = Tuple(ind: Str, val: Str)

  function Keys(v: seq<Tuple>): (r: seq<Str>)
    ensures |r| == |v| && forall i :: 0 <= i < |v| ==> r[i] == v[i].ind
  {
    seq(|v|, i requires 0 <= i < |v| => v[i].ind)
  }

  predicate IsChar(x: int) {
    0 <= x < 256
  }

  /** The compiled keys.  Keys that begin with a narrow character x lie in start[x]..end[x], all
      others from otherStart on. */
  datatype Context = Context(v: seq<Tuple>, prefix: seq<int>, isPrefix: seq<bool>, emptyRepl: Option<Str>,
                             start: seq<nat>, end: seq<nat>, otherStart: nat)

  ghost predicate Found(x: int, i: nat, start: seq<nat>, end: seq<nat>, otherStart: nat)
    requires |start| == |end| == 256
  {
    if IsChar(x) then start[x] <= i < end[x] else otherStart <= i
  }

  ghost predicate Compiled(ctx: Context) {
    && Ordered(Keys(ctx.v)) && ctx.prefix == Links(Keys(ctx.v), |ctx.v|)
    && |ctx.isPrefix| == |ctx.v| && Flags(ctx.prefix, ctx.isPrefix)
    && |ctx.start| == |ctx.end| == 256
    && (forall x :: 0 <= x < 256 ==> ctx.end[x] <= |ctx.v|)
    && (forall i :: 0 <= i < |ctx.v| ==> ctx.v[i].ind != [] &&
                                         Found(ctx.v[i].ind[0], i, ctx.start, ctx.end, ctx.otherStart))
  }

  /** A sorted copy (the sorting template itself is not part of this model). */
  function Sort(v: seq<Tuple>): (r: seq<Tuple>)
    ensures |r| == |v| && forall x :: x in r <==> x in v
  {
    if v == [] then [] else Insert(Sort(v[1..]), v[0])
  }

  function Insert(r: seq<Tuple>, x: Tuple): (s: seq<Tuple>)
    ensures |s| == |r| + 1 && forall y :: y in s <==> y == x || y in r
  {
    if r == [] || !Less(r[0].ind, x.ind) then [x] + r else [r[0]] + Insert(r[1..], x)
  }

  lemma NotAbove(s: Str, t: Str, u: Str)
    requires !Less(t, s) && !Less(u, t)
    ensures !Less(u, s)
  {
    Total(s, t);
    Total(t, u);
    Total(u, s);
    if Less(u, s) && s != t {
      Transitive(u, s, t);
    }
  }

  lemma KeysCons(x: Tuple, r: seq<Tuple>)
    ensures Keys([x] + r) == [x.ind] + Keys(r)
    ensures multiset(Keys([x] + r)) == multiset{x.ind} + multiset(Keys(r))
  {
    assert multiset([x.ind] + Keys(r)) == multiset([x.ind]) + multiset(Keys(r));
  }

  lemma OrderedCons(k: Str, ks: seq<Str>)
    requires Ordered(ks) && forall x :: x in ks ==> !Less(x, k)
    ensures Ordered([k] + ks)
  {
  }

  lemma OrderedTail(k: Str, ks: seq<Str>)
    requires Ordered([k] + ks)
    ensures Ordered(ks) && forall x :: x in ks ==> !Less(x, k)
  {
    var s := [k] + ks;
    forall i, j | 0 <= i < j < |ks| ensures !Less(ks[j], ks[i]) {
      assert s[i + 1] == ks[i] && s[j + 1] == ks[j];
    }
    forall j | 0 <= j < |ks| ensures !Less(ks[j], k) {
      assert s[0] == k && s[j + 1] == ks[j];
    }
  }

  lemma {:induction false} InsertSorts(r: seq<Tuple>, x: Tuple)
    requires Ordered(Keys(r))
    ensures Ordered(Keys(Insert(r, x)))
    ensures multiset(Keys(Insert(r, x))) == multiset(Keys(r)) + multiset{x.ind}
  {
    if r == [] {
      assert Keys([x] + r) == [x.ind] && Keys(r) == [];
    } else {
      var first, rest := r[0], r[1..];
      assert r == [first] + rest;
      KeysCons(first, rest);
      OrderedTail(first.ind, Keys(rest));
      if Less(first.ind, x.ind) {
        InsertSorts(rest, x);
        KeysCons(first, Insert(rest, x));
        forall k | k in Keys(Insert(rest, x)) ensures !Less(k, first.ind) {
          assert k in multiset(Keys(Insert(rest, x)));
          Total(first.ind, x.ind);
        }
        OrderedCons(first.ind, Keys(Insert(rest, x)));
      } else {
        KeysCons(x, r);
        forall k | k in Keys(r) ensures !Less(k, x.ind) {
          if k != first.ind {
            NotAbove(x.ind, first.ind, k);
          }
        }
        OrderedCons(x.ind, Keys(r));
      }
    }
  }

  lemma {:induction false} SortSorts(v: seq<Tuple>)
    ensures Ordered(Keys(Sort(v))) && multiset(Keys(Sort(v))) == multiset(Keys(v))
  {
    if v != [] {
      SortSorts(v[1..]);
      InsertSorts(Sort(v[1..]), v[0]);
      assert v == [v[0]] + v[1..];
      KeysCons(v[0], v[1..]);
    }
  }

  // ---- Links ----

  /** Follow parents from d to the first key shorter than bound. */
  function Chain(keys: seq<Str>, prefix: seq<int>, d: int, bound: int): (r: int)
    requires -1 <= d < |prefix| <= |keys| && Backwards(prefix)
    ensures -1 <= r <= d
    decreases d
  {
    if d < 0 then -1 else if |keys[d]| < bound then d else Chain(keys, prefix, prefix[d], bound)
  }

  /** The parent that compilation gives to key e. */
  function ParentOf(keys: seq<Str>, prefix: seq<int>, e: nat): (r: int)
    requires |prefix| == e < |keys| && Backwards(prefix)
    ensures -1 <= r < e
  {
    if e == 0 then -1
    else
      var tmp := BinaryPrefix(keys[e], keys[e - 1]);
      if tmp == 1 then -1 else Chain(keys, prefix, e - 1, tmp)
  }

  /** The links of the first n keys. */
  function Links(keys: seq<Str>, n: nat): (r: seq<int>)
    requires n <= |keys|
    ensures |r| == n && Backwards(r)
  {
    if n == 0 then [] else Links(keys, n - 1) + [ParentOf(keys, Links(keys, n - 1), n - 1)]
  }

  method FindParent(keys: seq<Str>, prefix: seq<int>, e: nat) returns (d: int)
    requires |prefix| == e < |keys| && Backwards(prefix)
    ensures d == ParentOf(keys, prefix, e)
  {
    d := e - 1;
    if d >= 0 {
      var tmp := FindBinaryPrefix(keys[e], keys[d]);
      if tmp == 1 {
        d := -1;
      } else {
        while d >= 0
          invariant -1 <= d < e && Chain(keys, prefix, e - 1, tmp) == Chain(keys, prefix, d, tmp)
          decreases d
        {
          if |keys[d]| < tmp {
            break;
          }
          d := prefix[d];
        }
      }
    }
  }

  lemma {:induction false} ChainSound(keys: seq<Str>, prefix: seq<int>, e: nat, d: int, bound: int)
    requires |prefix| <= |keys| && Sound(keys, prefix) && e < |keys| && -1 <= d < |prefix| &&
             (d >= 0 ==> keys[d] <= keys[e])
    ensures var r := Chain(keys, prefix, d, bound);
      r >= 0 ==> keys[r] <= keys[e] && |keys[r]| < bound
    decreases d
  {
    if d >= 0 && |keys[d]| >= bound {
      ChainSound(keys, prefix, e, prefix[d], bound);
    }
  }

  /** A key is compared with its neighbour: where they part, or not at all. */
  lemma Neighbours(x: Str, y: Str)
    requires !Less(y, x)
    ensures var q := Common(y, x);
      && BinaryPrefix(y, x) == (if x == y then 0 else q + 1) && Common(x, y) == q
      && (x != y ==> q < |y|)
  {
    var q := Common(y, x);
    CommonIs(y, x);
    CommonUnique(x, y, q);
    Total(x, y);
    if q == |y| && x != y {
      assert y == y[..q] && y < x;
      PrefixLess(y, x);
    }
    if x == y {
      CommonUnique(y, x, |y|);
    }
  }

  lemma ParentSound(keys: seq<Str>, prefix: seq<int>, e: nat)
    requires Ordered(keys) && |prefix| == e < |keys| && Sound(keys, prefix)
    ensures var d := ParentOf(keys, prefix, e); d >= 0 ==> keys[d] < keys[e]
  {
    if e > 0 {
      Neighbours(keys[e - 1], keys[e]);
      var tmp := BinaryPrefix(keys[e], keys[e - 1]);
      ChainSound(keys, prefix, e - 1, e - 1, tmp);
      var d := Chain(keys, prefix, e - 1, tmp);
      if d >= 0 {
        WithinCommon(keys[d], keys[e - 1], keys[e]);
      }
    }
  }

  /** Whatever the keys are, the links lead to proper prefixes. */
  lemma {:induction false} LinksSound(keys: seq<Str>, n: nat)
    requires Ordered(keys) && n <= |keys|
    ensures Sound(keys, Links(keys, n))
  {
    if n > 0 {
      LinksSound(keys, n - 1);
      ParentSound(keys, Links(keys, n - 1), n - 1);
    }
  }

  /** Keys that begin key e also begin key e-1, within the common prefix of the two. */
  lemma EarlierPrefixes(keys: seq<Str>, e: nat)
    requires Ordered(keys) && 0 < e < |keys| && keys[e - 1] != keys[e]
    ensures var q := Common(keys[e], keys[e - 1]);
      && (forall k :: 0 <= k < e && keys[k] < keys[e] ==> keys[k] <= keys[e - 1] && |keys[k]| <= q)
      && (forall k :: 0 <= k < e && keys[k] <= keys[e - 1] && |keys[k]| <= q ==> keys[k] < keys[e])
  {
    var q := Common(keys[e], keys[e - 1]);
    Neighbours(keys[e - 1], keys[e]);
    Total(keys[e - 1], keys[e]);
    CommonIs(keys[e], keys[e - 1]);
    forall k | 0 <= k < e && keys[k] < keys[e] ensures keys[k] <= keys[e - 1] && |keys[k]| <= q {
      Total(keys[k], keys[e - 1]);
      PrefixBetween(keys[k], keys[e - 1], keys[e]);
      PrefixInCommon(keys[k], keys[e], keys[e - 1]);
    }
    forall k | 0 <= k < e && keys[k] <= keys[e - 1] && |keys[k]| <= q ensures keys[k] < keys[e] {
      WithinCommon(keys[k], keys[e - 1], keys[e]);
    }
  }

  /** The chain of key e-1 holds every key that begins key e. */
  lemma {:induction false} ChainFinds(keys: seq<Str>, prefix: seq<int>, e: nat, d: int, q: nat)
    requires Ordered(keys) && |prefix| == e < |keys| && Forest(keys, prefix) && Backwards(prefix) && -1 <= d < e
    requires d >= 0 ==> keys[d] <= keys[e - 1]
    requires forall k :: 0 <= k < e && keys[k] < keys[e] ==> d >= 0 && k <= d && keys[k] <= keys[d] && |keys[k]| <= q
    requires forall k :: 0 <= k < e && keys[k] <= keys[e - 1] && |keys[k]| <= q ==> keys[k] < keys[e]
    ensures ParentOk(keys, prefix + [Chain(keys, prefix, d, q + 1)], e)
    decreases d
  {
    if d >= 0 && |keys[d]| > q {
      assert ParentOk(keys, prefix, d);
      var p := prefix[d];
      forall k | 0 <= k < e && keys[k] < keys[e] ensures p >= 0 && k <= p && keys[k] <= keys[p] {
        assert keys[k] < keys[d] && k < d;
        if k != p {
          ShorterNests(keys, k, p, d);
        }
      }
      ChainFinds(keys, prefix, e, p, q);
    }
  }

  /** A repeated key is given no parent. */
  lemma {:induction false} NoneShorter(keys: seq<Str>, prefix: seq<int>, d: int)
    requires -1 <= d < |prefix| <= |keys| && Backwards(prefix)
    ensures Chain(keys, prefix, d, 0) == -1
    decreases d
  {
    if d >= 0 {
      NoneShorter(keys, prefix, prefix[d]);
    }
  }

  lemma RepeatedHasNoParent(keys: seq<Str>, prefix: seq<int>, e: nat)
    requires |prefix| == e < |keys| && Backwards(prefix) && e > 0 && keys[e] == keys[e - 1]
    ensures ParentOf(keys, prefix, e) == -1
  {
    CommonUnique(keys[e], keys[e - 1], |keys[e]|);
    NoneShorter(keys, prefix, e - 1);
  }

  /** Each key of a sorted vector is given its right parent. */
  lemma ParentRight(keys: seq<Str>, prefix: seq<int>, e: nat)
    requires Sorted(keys) && |prefix| == e < |keys| && Forest(keys, prefix) && Backwards(prefix)
    requires forall k :: 0 <= k < |keys| ==> keys[k] != []
    ensures ParentOk(keys, prefix + [ParentOf(keys, prefix, e)], e)
  {
    if e > 0 {
      Neighbours(keys[e - 1], keys[e]);
      if keys[e - 1] == keys[e] {
        RepeatedHasNoParent(keys, prefix, e);
        forall k | 0 <= k < e && keys[k] < keys[e] ensures false {
          OnlyOnce(keys, k, e, e - 1);
        }
      } else {
        EarlierPrefixes(keys, e);
        var q := Common(keys[e], keys[e - 1]);
        if q > 0 {
          ChainFinds(keys, prefix, e, e - 1, q);
        }
      }
    }
  }

  lemma {:induction false} LinksRight(keys: seq<Str>, n: nat)
    requires Sorted(keys) && n <= |keys| && forall k :: 0 <= k < |keys| ==> keys[k] != []
    ensures Forest(keys, Links(keys, n))
  {
    if n > 0 {
      LinksRight(keys, n - 1);
      ParentRight(keys, Links(keys, n - 1), n - 1);
      ForestStep(keys, Links(keys, n - 1), ParentOf(keys, Links(keys, n - 1), n - 1));
    }
  }

  lemma ShorterNests(keys: seq<Str>, k: nat, p: nat, d: nat)
    requires Ordered(keys) && k < p < d < |keys| && keys[k] < keys[d] && keys[p] < keys[d]
    ensures keys[k] <= keys[p]
  {
    if |keys[k]| > |keys[p]| {
      PrefixesNest(keys[p], keys[k], keys[d]);
      PrefixIndex(keys, p, k);
    } else {
      PrefixesNest(keys[k], keys[p], keys[d]);
    }
  }

  lemma ForestStep(keys: seq<Str>, prefix: seq<int>, d: int)
    requires |prefix| < |keys| && Forest(keys, prefix) && ParentOk(keys, prefix + [d], |prefix|)
    ensures Forest(keys, prefix + [d])
  {
    forall e | 0 <= e < |prefix| ensures ParentOk(keys, prefix + [d], e) {
      assert ParentOk(keys, prefix, e);
    }
  }

  // ---- First characters, and all together ----

  /** Where the keys with each first character start, after looking at the last e keys, from the end. */
  function Starts(v: seq<Tuple>, e: nat): (r: seq<nat>)
    requires e <= |v|
    ensures |r| == 256
  {
    if e == 0 then seq(256, _ => 0)
    else
      var r, n := Starts(v, e - 1), |v| - e;
      if v[n].ind != [] && IsChar(v[n].ind[0]) then r[v[n].ind[0] := n] else r
  }

  /** Where the first key with another first character starts. */
  function OtherStart(v: seq<Tuple>, e: nat): (r: nat)
    requires e <= |v|
    ensures |v| - e <= r <= |v|
  {
    if e == 0 then |v|
    else
      var n := |v| - e;
      if v[n].ind != [] && !IsChar(v[n].ind[0]) then n else OtherStart(v, e - 1)
  }

  /** Where the keys with each first character end, after looking at the first e keys. */
  function Ends(v: seq<Tuple>, e: nat): (r: seq<nat>)
    requires e <= |v|
    ensures |r| == 256 && forall x :: 0 <= x < 256 ==> r[x] <= e
  {
    if e == 0 then seq(256, _ => 0)
    else
      var r := Ends(v, e - 1);
      if v[e - 1].ind != [] && IsChar(v[e - 1].ind[0]) then r[v[e - 1].ind[0] := e] else r
  }

  lemma {:induction false} RangesCover(v: seq<Tuple>, e: nat, i: nat)
    requires e <= |v| && i < |v| && v[i].ind != []
    ensures i >= |v| - e ==> if IsChar(v[i].ind[0]) then Starts(v, e)[v[i].ind[0]] <= i else OtherStart(v, e) <= i
    ensures i < e && IsChar(v[i].ind[0]) ==> i < Ends(v, e)[v[i].ind[0]]
  {
    if e > 0 {
      RangesCover(v, e - 1, i);
    }
  }

  /** Collect the non-empty keys; a non-empty replacement for the empty key is kept apart. */
  method Collect(from: seq<Str>, to: seq<Str>) returns (v: seq<Tuple>, emptyRepl: Option<Str>)
    requires |from| == |to|
    ensures v == Pairs(from, to, |from|) && emptyRepl == EmptyRepl(from, to, |from|)
  {
    v, emptyRepl := [], None;
    for e := 0 to |from|
      invariant v == Pairs(from, to, e) && emptyRepl == EmptyRepl(from, to, e)
    {
      if |from[e]| == 0 {
        if |to[e]| != 0 {
          emptyRepl := Some(to[e]);
        }
      } else {
        v := v + [Tuple(from[e], to[e])];
      }
    }
  }

  function Pairs(from: seq<Str>, to: seq<Str>, n: nat): (r: seq<Tuple>)
    requires n <= |from| == |to|
    ensures forall x :: x in r <==> exists i :: 0 <= i < n && from[i] != [] && x == Tuple(from[i], to[i])
  {
    if n == 0 then []
    else Pairs(from, to, n - 1) + if from[n - 1] == [] then [] else [Tuple(from[n - 1], to[n - 1])]
  }

  /** The last non-empty replacement given for the empty key. */
  function EmptyRepl(from: seq<Str>, to: seq<Str>, n: nat): Option<Str>
    requires n <= |from| == |to|
  {
    if n == 0 then None
    else if from[n - 1] == [] && to[n - 1] != [] then Some(to[n - 1])
    else EmptyRepl(from, to, n - 1)
  }

  /** The non-empty strings. */
  function NonEmpty(from: seq<Str>): seq<Str> {
    if from == [] then []
    else NonEmpty(from[..|from| - 1]) + if from[|from| - 1] == [] then [] else [from[|from| - 1]]
  }

  lemma {:induction false} PairsAre(from: seq<Str>, to: seq<Str>, n: nat)
    requires n <= |from| == |to|
    ensures Keys(Pairs(from, to, n)) == NonEmpty(from[..n])
  {
    if n > 0 {
      PairsAre(from, to, n - 1);
      assert from[..n][..n - 1] == from[..n - 1];
    }
  }

  function FlagsOf(prefix: seq<int>, n: nat): seq<bool> {
    seq(n, d => d in prefix)
  }

  /** The context compiled from the strings. */
  function CompileOf(from: seq<Str>, to: seq<Str>): Context
    requires |from| == |to|
  {
    var v := Sort(Pairs(from, to, |from|));
    var prefix := Links(Keys(v), |v|);
    Context(v, prefix, FlagsOf(prefix, |v|), EmptyRepl(from, to, |from|), Starts(v, |v|), Ends(v, |v|),
      OtherStart(v, |v|))
  }

  /** It holds the non-empty strings in order, with their links, flags and ranges. */
  lemma CompiledIs(from: seq<Str>, to: seq<Str>)
    requires |from| == |to|
    ensures var ctx := CompileOf(from, to);
      && Compiled(ctx) && multiset(Keys(ctx.v)) == multiset(NonEmpty(from))
      && forall x :: x in ctx.v <==> exists i :: 0 <= i < |from| && from[i] != [] && x == Tuple(from[i], to[i])
  {
    var w := Pairs(from, to, |from|);
    var v := Sort(w);
    PairsAre(from, to, |from|);
    assert from[..|from|] == from;
    SortSorts(w);
    hide Sort, Links, Pairs, Starts, Ends, OtherStart, Ordered;
    forall i | 0 <= i < |v| ensures v[i].ind != [] {
      assert v[i] in v;
    }
    hide FlagsOf;
    RangesFound(v);
    FlagsAre(Links(Keys(v), |v|), |v|);
  }

  lemma RangesFound(v: seq<Tuple>)
    requires forall i :: 0 <= i < |v| ==> v[i].ind != []
    ensures forall i :: 0 <= i < |v| ==> Found(v[i].ind[0], i, Starts(v, |v|), Ends(v, |v|), OtherStart(v, |v|))
  {
    hide Starts, Ends, OtherStart;
    forall i | 0 <= i < |v| ensures Found(v[i].ind[0], i, Starts(v, |v|), Ends(v, |v|), OtherStart(v, |v|)) {
      RangesCover(v, |v|, i);
    }
  }

  lemma FlagsAre(prefix: seq<int>, n: nat)
    ensures |FlagsOf(prefix, n)| == n && Flags(prefix, FlagsOf(prefix, n))
  {
  }

  /** The key e steps from the end may start the range of its first character, and key e end one. */
  method NoteRanges(v: seq<Tuple>, e: nat, start0: seq<nat>, end0: seq<nat>, otherStart0: nat)
    returns (start: seq<nat>, end: seq<nat>, otherStart: nat)
    requires e < |v| && start0 == Starts(v, e) && end0 == Ends(v, e) && otherStart0 == OtherStart(v, e)
    ensures start == Starts(v, e + 1) && end == Ends(v, e + 1) && otherStart == OtherStart(v, e + 1)
  {
    start, end, otherStart := start0, end0, otherStart0;
    var first := v[|v| - 1 - e].ind;
    if |first| > 0 {
      if IsChar(first[0]) {
        start := start[first[0] := |v| - e - 1];
      } else {
        otherStart := |v| - e - 1;
      }
    }
    var last := v[e].ind;
    if |last| > 0 && IsChar(last[0]) {
      end := end[last[0] := e + 1];
    }
  }

  /** Sort the keys, find the range of each first character, and link the prefix forest. */
  method CompileReplaceMany(from: seq<Str>, to: seq<Str>) returns (ctx: Context)
    requires |from| == |to|
    ensures ctx == CompileOf(from, to) && Compiled(ctx)
    ensures Harmless(multiset(NonEmpty(from))) ==> Forest(Keys(ctx.v), ctx.prefix)
  {
    CompiledIs(from, to);
    var v, emptyRepl := Collect(from, to);
    v := Sort(v);
    var num := |v|;
    var keys := Keys(v);
    hide Sort, Pairs, ParentOf, Compiled, Forest, Harmless, Starts, Ends, OtherStart, FlagsOf;
    NothingYet(v);
    var start: seq<nat>, end: seq<nat>, otherStart: nat := seq(256, _ => 0), seq(256, _ => 0), num;
    var prefix: seq<int> := [];
    var isPrefix := seq(num, _ => false);
    for e := 0 to num
      invariant start == Starts(v, e) && end == Ends(v, e) && otherStart == OtherStart(v, e)
      invariant prefix == Links(keys, e) && isPrefix == FlagsOf(prefix, num)
    {
      start, end, otherStart := NoteRanges(v, e, start, end, otherStart);
      var d := FindParent(keys, prefix, e);
      FlagStep(prefix, num, d);
      if d >= 0 {
        isPrefix := isPrefix[d := true];
      }
      prefix := prefix + [d];
    }
    ctx := Context(v, prefix, isPrefix, emptyRepl, start, end, otherStart);
    if Harmless(multiset(NonEmpty(from))) {
      CompiledForest(ctx);
    }
  }

  lemma NothingYet(v: seq<Tuple>)
    ensures Starts(v, 0) == Ends(v, 0) == seq(256, _ => 0) && OtherStart(v, 0) == |v|
    ensures FlagsOf([], |v|) == seq(|v|, _ => false)
  {
  }

  lemma FlagStep(prefix: seq<int>, n: nat, d: int)
    requires -1 <= d < n
    ensures FlagsOf(prefix + [d], n) == if d >= 0 then FlagsOf(prefix, n)[d := true] else FlagsOf(prefix, n)
  {
  }

  lemma CompiledForest(ctx: Context)
    requires Compiled(ctx) && Harmless(multiset(Keys(ctx.v)))
    ensures Sorted(Keys(ctx.v)) && Forest(Keys(ctx.v), ctx.prefix)
  {
    LinksRight(Keys(ctx.v), |ctx.v|);
  }

  // ---- Replacing ----

  /** What the search finds for the text t: the range of its first character is searched. */
  function LookupOf(ctx: Context, t: Str): (r: int)
    requires Compiled(ctx) && t != []
    ensures -1 <= r < |ctx.v|
  {
    var lo := if IsChar(t[0]) then ctx.start[t[0]] else ctx.otherStart;
    var hi := if IsChar(t[0]) then ctx.end[t[0]] else |ctx.v|;
    if lo < hi then Search(t, Keys(ctx.v), ctx.prefix, ctx.isPrefix, Go(lo, hi, -1, -1)) else -1
  }

  method Lookup(ctx: Context, t: Str) returns (r: int)
    requires Compiled(ctx) && t != []
    ensures r == LookupOf(ctx, t)
  {
    var ch := t[0];
    var a: nat, b: nat;
    r := -1;
    if IsChar(ch) {
      a, b := ctx.start[ch], ctx.end[ch];
    } else {
      a, b := ctx.otherStart, |ctx.v|;
    }
    if a < b {
      r := FindLongestPrefix(t, Keys(ctx.v), ctx.prefix, ctx.isPrefix, a, b);
    }
  }

  /** Every hit begins the text, whatever the keys are. */
  lemma HitBegins(ctx: Context, t: Str)
    requires Compiled(ctx) && t != []
    ensures var r := LookupOf(ctx, t); r >= 0 ==> ctx.v[r].ind <= t && 0 < |ctx.v[r].ind|
  {
    LinksSound(Keys(ctx.v), |ctx.v|);
    var lo := if IsChar(t[0]) then ctx.start[t[0]] else ctx.otherStart;
    var hi := if IsChar(t[0]) then ctx.end[t[0]] else |ctx.v|;
    if lo < hi {
      SearchBegins(t, Keys(ctx.v), ctx.prefix, ctx.isPrefix, Go(lo, hi, -1, -1));
    }
  }

  /** Looking only at the keys that share the first character loses nothing. */
  lemma RangeIsEnough(ctx: Context, t: Str, k: nat)
    requires Compiled(ctx) && t != [] && k < |ctx.v| && Keys(ctx.v)[k] <= t
    ensures if IsChar(t[0]) then ctx.start[t[0]] <= k < ctx.end[t[0]] else ctx.otherStart <= k
  {
    assert ctx.v[k].ind[0] == t[0];
    assert Found(ctx.v[k].ind[0], k, ctx.start, ctx.end, ctx.otherStart);
  }

  /** When no repeated key begins another one or is begun by one, the hit is the longest key that begins the
      text. */
  lemma LookupIsLongest(ctx: Context, t: Str)
    requires Compiled(ctx) && t != [] && Harmless(multiset(Keys(ctx.v)))
    ensures LongestIn(Keys(ctx.v), 0, |ctx.v|, t, LookupOf(ctx, t))
  {
    CompiledForest(ctx);
    var lo := if IsChar(t[0]) then ctx.start[t[0]] else ctx.otherStart;
    var hi := if IsChar(t[0]) then ctx.end[t[0]] else |ctx.v|;
    forall k | 0 <= k < |ctx.v| && Keys(ctx.v)[k] <= t ensures lo <= k < hi {
      RangeIsEnough(ctx, t, k);
    }
    if lo < hi {
      SearchIsLongest(Keys(ctx.v), ctx.prefix, ctx.isPrefix, lo, hi, t, Go(lo, hi, -1, -1));
    }
  }

  /** What the empty key puts between two characters of the text. */
  function Gap(emptyRepl: Option<Str>, rest: Str): Str {
    if emptyRepl.Some? && rest != [] then emptyRepl.value else []
  }

  /** What a context makes of a text, hit by hit. */
  function Rewritten(ctx: Context, t: Str): Str
    requires Compiled(ctx)
    decreases |t|
  {
    if t == [] then []
    else
      HitBegins(ctx, t);
      var r := LookupOf(ctx, t);
      if r >= 0 then
        var rest := t[|ctx.v[r].ind|..];
        ctx.v[r].val + Gap(ctx.emptyRepl, rest) + Rewritten(ctx, rest)
      else
        [t[0]] + Gap(ctx.emptyRepl, t[1..]) + Rewritten(ctx, t[1..])
  }

  /** Index of the longest non-empty string among from[..n] that begins t; -1 if none does. */
  function Best(from: seq<Str>, t: Str, n: nat): (r: int)
    requires n <= |from|
    ensures -1 <= r < n && (r >= 0 ==> from[r] != [] && from[r] <= t)
    ensures forall i :: 0 <= i < n && from[i] != [] && from[i] <= t ==> r >= 0 && |from[i]| <= |from[r]|
  {
    if n == 0 then -1
    else
      var r := Best(from, t, n - 1);
      if from[n - 1] != [] && from[n - 1] <= t && (r < 0 || |from[n - 1]| > |from[r]|) then n - 1 else r
  }

  /** Leftmost-longest replacement: the reference the compiled search is held against. */
  function Replaced(from: seq<Str>, to: seq<Str>, t: Str): Str
    requires |from| == |to|
    decreases |t|
  {
    if t == [] then []
    else
      var i := Best(from, t, |from|);
      var empty := EmptyRepl(from, to, |from|);
      if i >= 0 then
        var rest := t[|from[i]|..];
        to[i] + Gap(empty, rest) + Replaced(from, to, rest)
      else
        [t[0]] + Gap(empty, t[1..]) + Replaced(from, to, t[1..])
  }

  /** A string given more than once is given with the same replacement. */
  ghost predicate Consistent(from: seq<Str>, to: seq<Str>) {
    |from| == |to| && forall i, j :: 0 <= i < j < |from| && from[i] == from[j] != [] ==> to[i] == to[j]
  }

  /** A hit of the search is the string the reference picks, and a miss is a miss. */
  lemma HitIsBest(from: seq<Str>, to: seq<Str>, t: Str)
    requires Consistent(from, to) && Harmless(multiset(NonEmpty(from))) && t != []
    ensures var ctx, i := CompileOf(from, to), Best(from, t, |from|);
      && Compiled(ctx)
      && (var r := LookupOf(ctx, t); if r < 0 then i < 0 else i >= 0 && ctx.v[r] == Tuple(from[i], to[i]))
  {
    CompiledIs(from, to);
    var ctx, i := CompileOf(from, to), Best(from, t, |from|);
    LookupIsLongest(ctx, t);
    var r := LookupOf(ctx, t);
    hide CompileOf, Compiled, LookupOf, Harmless;
    if i >= 0 {
      var x := Tuple(from[i], to[i]);
      assert x in ctx.v;
      var k :| 0 <= k < |ctx.v| && ctx.v[k] == x;
      assert Keys(ctx.v)[k] <= t;
    }
    if r >= 0 {
      assert ctx.v[r] in ctx.v;
      var j :| 0 <= j < |from| && from[j] != [] && ctx.v[r] == Tuple(from[j], to[j]);
      assert from[j] <= t;
      assert from[i] <= from[j] && from[j] <= from[i];
      assert from[i] == from[j];
    }
  }

  /** The context made from such strings replaces leftmost-longest. */
  lemma {:induction false} RewrittenIsReplaced(from: seq<Str>, to: seq<Str>, t: Str)
    requires Consistent(from, to) && Harmless(multiset(NonEmpty(from)))
    ensures Compiled(CompileOf(from, to)) && Rewritten(CompileOf(from, to), t) == Replaced(from, to, t)
    decreases |t|
  {
    CompiledIs(from, to);
    if t != [] {
      var ctx, i := CompileOf(from, to), Best(from, t, |from|);
      HitIsBest(from, to, t);
      assert ctx.emptyRepl == EmptyRepl(from, to, |from|);
      RewrittenIsReplaced(from, to, if i >= 0 then t[|from[i]|..] else t[1..]);
    }
  }

  /** What is output, plus what is pending, plus what the rest of the text will give. */
  ghost function Outcome(ctx: Context, ret: Str, str: Str, e: nat, s: nat): Str
    requires Compiled(ctx) && e <= s <= |str|
  {
    ret + str[e..s] + Rewritten(ctx, str[s..])
  }

  lemma OutcomeHit(ctx: Context, ret: Str, str: Str, e: nat, s: nat)
    requires Compiled(ctx) && e <= s < |str| && LookupOf(ctx, str[s..]) >= 0
    ensures var x := ctx.v[LookupOf(ctx, str[s..])];
            var n := s + |x.ind|;
            && s < n <= |str|
            && Outcome(ctx, ret + str[e..s] + x.val + Gap(ctx.emptyRepl, str[n..]), str, n, n) ==
              Outcome(ctx, ret, str, e, s)
  {
    HitBegins(ctx, str[s..]);
    var x := ctx.v[LookupOf(ctx, str[s..])];
    var n := s + |x.ind|;
    assert str[s..][|x.ind|..] == str[n..];
    assert Rewritten(ctx, str[s..]) == x.val + Gap(ctx.emptyRepl, str[n..]) + Rewritten(ctx, str[n..]);
    hide Rewritten, LookupOf, Compiled;
    assert str[n..n] == [];
    Assoc(ret + str[e..s], x.val, Gap(ctx.emptyRepl, str[n..]), Rewritten(ctx, str[n..]));
  }

  lemma Assoc(w: Str, x: Str, y: Str, z: Str)
    ensures w + (x + y + z) == w + x + y + [] + z
  {
  }

  lemma RewrittenMiss(ctx: Context, str: Str, s: nat)
    requires Compiled(ctx) && s < |str| && LookupOf(ctx, str[s..]) < 0
    ensures Rewritten(ctx, str[s..]) == [str[s]] + Gap(ctx.emptyRepl, str[s + 1..]) + Rewritten(ctx, str[s + 1..])
  {
    assert str[s..][1..] == str[s + 1..];
  }

  lemma AssocOne(w: Str, x: Str, y: Str)
    ensures w + (x + [] + y) == w + x + y && w + [] == w
  {
  }

  /** Without an empty key a character that starts no match just stays pending. */
  lemma OutcomeMiss(ctx: Context, ret: Str, str: Str, e: nat, s: nat)
    requires Compiled(ctx) && e <= s < |str| && LookupOf(ctx, str[s..]) < 0
    requires Gap(ctx.emptyRepl, str[s + 1..]) == []
    ensures Outcome(ctx, ret, str, e, s + 1) == Outcome(ctx, ret, str, e, s)
  {
    RewrittenMiss(ctx, str, s);
    hide Rewritten, LookupOf, Compiled;
    var w := ret + str[e..s];
    AssocOne(w, [str[s]], Rewritten(ctx, str[s + 1..]));
    assert ret + str[e..s + 1] == w + [str[s]];
  }

  /** With one, it is output at once, with the replacement for the empty key behind it. */
  lemma OutcomeGap(ctx: Context, ret: Str, str: Str, s: nat)
    requires Compiled(ctx) && s < |str| && LookupOf(ctx, str[s..]) < 0
    ensures Outcome(ctx, ret + [str[s]] + Gap(ctx.emptyRepl, str[s + 1..]), str, s + 1, s + 1) ==
            Outcome(ctx, ret, str, s, s)
  {
    RewrittenMiss(ctx, str, s);
    hide Rewritten, LookupOf, Compiled;
    Assoc(ret, [str[s]], Gap(ctx.emptyRepl, str[s + 1..]), Rewritten(ctx, str[s + 1..]));
    assert str[s + 1..s + 1] == [] && str[s..s] == [] && ret + [] == ret;
  }

  /** Replace what the search finds, from left to right.  Text between two matches is copied in
      one piece, except that a replacement for the empty key is put in after each character. */
  method ExecuteReplaceMany(ctx: Context, str: Str) returns (ret: Str)
    requires Compiled(ctx)
    ensures ret == Rewritten(ctx, str)
  {
    hide Compiled, Outcome, LookupOf, Rewritten;
    ret := [];
    var e, s, length := 0, 0, |str|;
    OutcomeStart(ctx, str);
    while length > 0
      invariant 0 <= e <= s <= |str| && length == |str| - s
      invariant Outcome(ctx, ret, str, e, s) == Rewritten(ctx, str)
      invariant ctx.emptyRepl.Some? && length > 0 ==> e == s
      decreases length
    {
      var ch := str[s];
      var a := Lookup(ctx, str[s..]);
      if a >= 0 {
        OutcomeHit(ctx, ret, str, e, s);
        assert s == e ==> ret + str[e..s] == ret;
        if s != e {
          ret := ret + str[e..s];
        }
        var n := |ctx.v[a].ind|;
        s := s + n;
        length := length - n;
        e := s;
        ret := ret + ctx.v[a].val;
        assert ret + [] == ret;
        if ctx.emptyRepl.Some? && length > 0 {
          ret := ret + ctx.emptyRepl.value;
        }
      } else {
        if ctx.emptyRepl.Some? && length > 1 {
          OutcomeGap(ctx, ret, str, s);
        } else {
          OutcomeMiss(ctx, ret, str, e, s);
        }
        s := s + 1;
        length := length - 1;
        if ctx.emptyRepl.Some? && length > 0 {
          ret := ret + [ch];
          ret := ret + ctx.emptyRepl.value;
          e := s;
        }
      }
    }
    OutcomeEnd(ctx, ret, str, e);
    if e < s {
      ret := ret + str[e..s];
    }
  }

  lemma OutcomeStart(ctx: Context, str: Str)
    requires Compiled(ctx)
    ensures Outcome(ctx, [], str, 0, 0) == Rewritten(ctx, str)
  {
    assert str[0..] == str;
  }

  lemma OutcomeEnd(ctx: Context, ret: Str, str: Str, e: nat)
    requires Compiled(ctx) && e <= |str|
    ensures Outcome(ctx, ret, str, e, |str|) == ret + str[e..|str|]
  {
  }

  /** replace() with arrays of strings: leftmost-longest replacement, as long as no repeated string begins
      another one or is begun by one. */
  method ReplaceManyStrings(str: Str, from: seq<Str>, to: seq<Str>) returns (ret: Str)
    requires |from| == |to|
    ensures Compiled(CompileOf(from, to)) && ret == Rewritten(CompileOf(from, to), str)
    ensures Consistent(from, to) && Harmless(multiset(NonEmpty(from))) ==> ret == Replaced(from, to, str)
  {
    var ctx := CompileReplaceMany(from, to);
    ret := ExecuteReplaceMany(ctx, str);
    if Consistent(from, to) && Harmless(multiset(NonEmpty(from))) {
      RewrittenIsReplaced(from, to, str);
    }
  }
}
