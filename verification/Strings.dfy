/** Character strings compared element by element. */
module Strings {

  type Str = seq<int>

  /** Strict lexicographic order; a proper prefix comes first. */
  predicate Less(s: Str, t: Str) {
    t != [] && (s == [] || s[0] < t[0] || (s[0] == t[0] && Less(s[1..], t[1..])))
  }

  /** Length of the longest common prefix. */
  function Common(s: Str, t: Str): (k: nat)
    ensures k <= |s| && k <= |t|
  {
    if s == [] || t == [] || s[0] != t[0] then 0 else 1 + Common(s[1..], t[1..])
  }

  lemma {:induction false} CommonIs(s: Str, t: Str)
    ensures var k := Common(s, t);
            s[..k] == t[..k] && (k < |s| && k < |t| ==> s[k] != t[k])
  {
    if s != [] && t != [] && s[0] == t[0] {
      CommonIs(s[1..], t[1..]);
      var k := Common(s[1..], t[1..]);
      assert s[..k + 1] == [s[0]] + s[1..][..k];
      assert t[..k + 1] == [t[0]] + t[1..][..k];
    }
  }

  lemma {:induction false} CommonUnique(s: Str, t: Str, k: nat)
    requires k <= |s| && k <= |t| && s[..k] == t[..k]
    requires k < |s| && k < |t| ==> s[k] != t[k]
    ensures Common(s, t) == k
  {
    if k > 0 {
      assert s[0] == s[..k][0] == t[..k][0] == t[0];
      assert s[1..][..k - 1] == s[..k][1..];
      assert t[1..][..k - 1] == t[..k][1..];
      CommonUnique(s[1..], t[1..], k - 1);
    }
  }

  /** The order is decided at the end of the common prefix. */
  lemma {:induction false} LessAtCommon(s: Str, t: Str)
    ensures var k := Common(s, t);
            Less(s, t) <==> (k == |s| && k < |t|) || (k < |s| && k < |t| && s[k] < t[k])
  {
    if s != [] && t != [] && s[0] == t[0] {
      LessAtCommon(s[1..], t[1..]);
    }
  }

  lemma {:induction false} Total(s: Str, t: Str)
    ensures Less(s, t) || s == t || Less(t, s)
    ensures !(Less(s, t) && Less(t, s)) && (Less(s, t) ==> s != t)
  {
    if s != [] && t != [] {
      Total(s[1..], t[1..]);
      assert s == [s[0]] + s[1..] && t == [t[0]] + t[1..];
    }
  }

  lemma {:induction false} Transitive(s: Str, t: Str, u: Str)
    requires Less(s, t) && Less(t, u)
    ensures Less(s, u)
  {
    if s != [] && s[0] == t[0] == u[0] {
      Transitive(s[1..], t[1..], u[1..]);
    }
  }

  /** A prefix of u that is not above m is a prefix of m too, when m is not above u. */
  lemma {:induction false} PrefixBetween(p: Str, m: Str, u: Str)
    requires p <= u && (p == m || Less(p, m)) && (m == u || Less(m, u))
    ensures p <= m
  {
    if p != [] && p != m {
      assert p[0] == u[0];
      if m != u {
        assert p[0] <= m[0] <= u[0];
      }
      assert p[1..] <= u[1..];
      PrefixBetween(p[1..], m[1..], u[1..]);
      assert p == [p[0]] + p[1..] && m == [m[0]] + m[1..];
    }
  }

  lemma {:induction false} PrefixLess(p: Str, s: Str)
    requires p < s
    ensures Less(p, s)
  {
    if p != [] {
      assert p[0] == s[0] && p[1..] < s[1..];
      PrefixLess(p[1..], s[1..]);
    }
  }

  /** Two prefixes of one string are nested. */
  lemma PrefixesNest(p: Str, q: Str, t: Str)
    requires p <= t && q <= t && |p| <= |q|
    ensures p <= q
  {
  }

  /** A prefix of two strings fits in their common prefix. */
  lemma {:induction false} PrefixInCommon(p: Str, s: Str, t: Str)
    requires p <= s && p <= t
    ensures |p| <= Common(s, t)
  {
    if p != [] {
      assert p[0] == s[0] == t[0];
      PrefixInCommon(p[1..], s[1..], t[1..]);
    }
  }

  /** What generic_find_binary_prefix computes: 0 for equal strings, else plus or minus one more
      than the length of the common prefix, by which of the strings is greater. */
  function BinaryPrefix(a: Str, b: Str): int {
    var k: int := Common(a, b);
    if k == |a| == |b| then 0
    else if Less(a, b) then -k - 1
    else k + 1
  }

  method FindBinaryPrefix(a: Str, b: Str) returns (r: int)
    ensures r == BinaryPrefix(a, b)
  {
    LessAtCommon(a, b);
    var len := if |a| < |b| then |a| else |b|;
    var pos := 0;
    while pos < len
      invariant 0 <= pos <= len && a[..pos] == b[..pos]
    {
      if a[pos] != b[pos] {
        CommonUnique(a, b, pos);
        if a[pos] < b[pos] {
          return -pos - 1;
        }
        return pos + 1;
      }
      pos := pos + 1;
    }
    CommonUnique(a, b, len);
    if |a| == |b| {
      return 0;
    }
    if |a| < |b| {
      return -|a| - 1;
    }
    return |b| + 1;
  }
}
