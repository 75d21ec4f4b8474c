/** What replace() with many keys gives, said without the functions it is computed by. */
module ReplaceMeaning {
  import opened Basics
  import opened Strings
  import opened ReplaceMany

  /** w is the last non-empty replacement given for the empty key, or empty when there is none. */
  ghost predicate LastEmpty(from: seq<Str>, to: seq<Str>, w: Str)
    requires |from| == |to|
  {
    if w == [] then forall i :: 0 <= i < |from| && from[i] == [] ==> to[i] == []
    else exists i :: 0 <= i < |from| && from[i] == [] && to[i] == w &&
           forall k :: i < k < |from| && from[k] == [] ==> to[k] == []
  }

  function Given(w: Str): Option<Str> {
    if w == [] then None else Some(w)
  }

  lemma {:induction false} LastEmptyTaken(from: seq<Str>, to: seq<Str>, w: Str, n: nat)
    requires n <= |from| == |to| && LastEmpty(from, to, w)
    requires forall k :: n <= k < |from| && from[k] == [] ==> to[k] == []
    ensures EmptyRepl(from, to, n) == Given(w)
  {
    if n > 0 && !(from[n - 1] == [] && to[n - 1] != []) {
      LastEmptyTaken(from, to, w, n - 1);
    }
  }

  /** The context holds the last non-empty replacement for the empty key. */
  lemma EmptyReplIs(from: seq<Str>, to: seq<Str>, w: Str)
    requires |from| == |to| && LastEmpty(from, to, w)
    ensures EmptyRepl(from, to, |from|) == Given(w)
  {
    LastEmptyTaken(from, to, w, |from|);
  }

  // ---- Pieces ----

  /** Key i is the longest one that begins t[s..]. */
  ghost predicate LongestKey(from: seq<Str>, t: Str, s: nat, i: nat)
    requires s <= |t| && i < |from|
  {
    && from[i] != [] && from[i] <= t[s..]
    && forall j :: 0 <= j < |from| && from[j] != [] && from[j] <= t[s..] ==> |from[j]| <= |from[i]|
  }

  ghost predicate NoKey(from: seq<Str>, t: Str, s: nat)
    requires s <= |t|
  {
    forall j :: 0 <= j < |from| && from[j] != [] ==> !(from[j] <= t[s..])
  }

  /** t[s..e] is the longest key that begins t[s..], and is replaced; or it is a single character where none
      begins, and stays. */
  ghost predicate Piece(from: seq<Str>, to: seq<Str>, t: Str, s: nat, e: nat, out: Str)
    requires |from| == |to|
  {
    && s < e <= |t|
    && ((exists i: nat :: i < |from| && LongestKey(from, t, s, i) && e == s + |from[i]| && out == to[i])
        || (e == s + 1 && out == [t[s]] && NoKey(from, t, s)))
  }

  /** The cuts take t apart from its beginning to its end. */
  ghost predicate CutUp(from: seq<Str>, to: seq<Str>, t: Str, s: nat, cuts: seq<nat>, outs: seq<Str>)
    requires |from| == |to|
  {
    && |cuts| == |outs| + 1 && cuts[0] == s && cuts[|outs|] == |t|
    && forall k :: 0 <= k < |outs| ==> Piece(from, to, t, cuts[k], cuts[k + 1], outs[k])
  }

  /** The pieces with w between each two. */
  function Join(pieces: seq<Str>, w: Str): Str {
    if pieces == [] then []
    else if |pieces| == 1 then pieces[0]
    else pieces[0] + w + Join(pieces[1..], w)
  }

  /** r is t cut into longest keys and single characters from left to right, the keys replaced, and w put
      between each two pieces. */
  ghost predicate LeftmostLongest(from: seq<Str>, to: seq<Str>, t: Str, w: Str, r: Str)
    requires |from| == |to|
  {
    exists cuts, outs :: CutUp(from, to, t, 0, cuts, outs) && r == Join(outs, w)
  }

  lemma {:induction false} CutFrom(from: seq<Str>, to: seq<Str>, t: Str, s: nat, w: Str)
    returns (cuts: seq<nat>, outs: seq<Str>)
    requires |from| == |to| && s <= |t| && EmptyRepl(from, to, |from|) == Given(w)
    ensures CutUp(from, to, t, s, cuts, outs) && Replaced(from, to, t[s..]) == Join(outs, w)
    decreases |t| - s
  {
    if s == |t| {
      cuts, outs := [s], [];
    } else {
      var e, out := FirstPiece(from, to, t, s, w);
      var c, o := CutFrom(from, to, t, e, w);
      cuts, outs := [s] + c, [out] + o;
      MoreCut(from, to, t, s, e, out, c, o);
      hide Piece;
      assert outs[1..] == o;
    }
  }

  lemma MoreCut(from: seq<Str>, to: seq<Str>, t: Str, s: nat, e: nat, out: Str, cuts: seq<nat>, outs: seq<Str>)
    requires |from| == |to| && Piece(from, to, t, s, e, out) && CutUp(from, to, t, e, cuts, outs)
    ensures CutUp(from, to, t, s, [s] + cuts, [out] + outs) && (e == |t| <==> outs == [])
  {
    hide LongestKey, NoKey;
    assert outs != [] ==> Piece(from, to, t, cuts[0], cuts[1], outs[0]);
  }

  /** The reference takes one piece and goes on behind it. */
  lemma FirstPiece(from: seq<Str>, to: seq<Str>, t: Str, s: nat, w: Str) returns (e: nat, out: Str)
    requires |from| == |to| && s < |t| && EmptyRepl(from, to, |from|) == Given(w)
    ensures Piece(from, to, t, s, e, out)
    ensures Replaced(from, to, t[s..]) == out + (if e == |t| then [] else w) + Replaced(from, to, t[e..])
  {
    var i := Best(from, t[s..], |from|);
    if i >= 0 {
      e, out := s + |from[i]|, to[i];
      assert LongestKey(from, t, s, i);
      assert t[s..][|from[i]|..] == t[e..];
    } else {
      e, out := s + 1, [t[s]];
      assert t[s..][1..] == t[e..] && NoKey(from, t, s);
    }
  }

  /** The reference is leftmost-longest replacement. */
  lemma ReplacedIsLeftmostLongest(from: seq<Str>, to: seq<Str>, t: Str, w: Str)
    requires |from| == |to| && LastEmpty(from, to, w)
    ensures LeftmostLongest(from, to, t, w, Replaced(from, to, t))
  {
    EmptyReplIs(from, to, w);
    var cuts, outs := CutFrom(from, to, t, 0, w);
    assert t[0..] == t;
  }

  // ---- Texts without a key ----

  /** r is t with w between each two characters. */
  ghost predicate Interleaved(t: Str, w: Str, r: Str) {
    && |r| == |t| + (if t == [] then 0 else (|t| - 1) * |w|)
    && forall i :: 0 <= i < |t| ==> Stands(t, w, r, i)
  }

  ghost predicate Stands(t: Str, w: Str, r: Str, i: nat)
    requires i < |t|
  {
    StandsAt(t, w, r, i, i * (1 + |w|))
  }

  /** Character i of t stands at place k of r, with w behind it unless it is the last one. */
  ghost predicate StandsAt(t: Str, w: Str, r: Str, i: nat, k: int)
    requires i < |t|
  {
    && 0 <= k < |r| && r[k] == t[i]
    && (i + 1 < |t| ==> k + 1 + |w| < |r| && r[k + 1..k + 1 + |w|] == w)
  }

  lemma NextPlace(i: nat, m: nat)
    requires i > 0
    ensures i * (1 + m) == (i - 1) * (1 + m) + 1 + m
  {
  }

  lemma StandsLater(t: Str, w: Str, r: Str, i: nat, k: int)
    requires 0 < i < |t| && StandsAt(t[1..], w, r, i - 1, k)
    ensures StandsAt(t, w, [t[0]] + w + r, i, k + 1 + |w|)
  {
    var q := [t[0]] + w + r;
    assert |[t[0]] + w| == 1 + |w|;
    assert q[k + 1 + |w|] == r[k];
    if i + 1 < |t| {
      assert q[k + 1 + |w| + 1..k + 1 + |w| + 1 + |w|] == r[k + 1..k + 1 + |w|];
    }
  }

  lemma StandsFirst(t: Str, w: Str, r: Str)
    requires |t| > 1 && r != []
    ensures StandsAt(t, w, [t[0]] + w + r, 0, 0)
  {
    assert ([t[0]] + w + r)[1..1 + |w|] == w;
  }

  lemma OneMore(n: nat, m: nat)
    requires n > 1
    ensures (n - 1) * m == (n - 2) * m + m
  {
  }

  lemma InterleavedStep(t: Str, w: Str, r: Str)
    requires |t| > 1 && Interleaved(t[1..], w, r)
    ensures Interleaved(t, w, [t[0]] + w + r)
  {
    hide StandsAt;
    assert t[1..] != [];
    OneMore(|t|, |w|);
    forall i | 0 <= i < |t| ensures Stands(t, w, [t[0]] + w + r, i) {
      if i == 0 {
        Something(t[1..], w, r);
        StandsFirst(t, w, r);
      } else {
        NextPlace(i, |w|);
        assert Stands(t[1..], w, r, i - 1);
        StandsLater(t, w, r, i, (i - 1) * (1 + |w|));
      }
    }
  }

  lemma Something(t: Str, w: Str, r: Str)
    requires t != [] && Interleaved(t, w, r)
    ensures r != []
  {
    assert Stands(t, w, r, 0);
  }

  /** Nothing in the context begins anywhere in the text: only the empty key has an effect. */
  lemma {:induction false} RewrittenInterleaves(ctx: Context, t: Str, w: Str)
    requires Compiled(ctx) && ctx.emptyRepl == Given(w)
    requires forall k, p :: 0 <= k < |ctx.v| && 0 <= p <= |t| ==> !(ctx.v[k].ind <= t[p..])
    ensures Interleaved(t, w, Rewritten(ctx, t))
    decreases |t|
  {
    if t != [] {
      HitBegins(ctx, t);
      assert t[0..] == t;
      var u := t[1..];
      forall k, p | 0 <= k < |ctx.v| && 0 <= p <= |u| ensures !(ctx.v[k].ind <= u[p..]) {
        assert u[p..] == t[p + 1..];
      }
      RewrittenInterleaves(ctx, u, w);
      assert Rewritten(ctx, t) == [t[0]] + (if u == [] then [] else w) + Rewritten(ctx, u);
      hide Compiled, LookupOf, Rewritten;
      if u == [] {
        assert [t[0]] + [] + [] == [t[0]];
      } else {
        InterleavedStep(t, w, Rewritten(ctx, u));
      }
    }
  }

  /** Whatever the keys are: in a text where none of them occurs, the replacement for the empty key comes
      between each two characters, and nothing else changes. */
  lemma NothingFound(from: seq<Str>, to: seq<Str>, t: Str, w: Str)
    requires |from| == |to| && LastEmpty(from, to, w)
    requires forall i, p :: 0 <= i < |from| && from[i] != [] && 0 <= p <= |t| ==> !(from[i] <= t[p..])
    ensures Compiled(CompileOf(from, to)) && Interleaved(t, w, Rewritten(CompileOf(from, to), t))
    ensures w == [] ==> Rewritten(CompileOf(from, to), t) == t
  {
    CompiledIs(from, to);
    EmptyReplIs(from, to, w);
    var ctx := CompileOf(from, to);
    assert ctx.emptyRepl == EmptyRepl(from, to, |from|);
    hide CompileOf, Compiled, EmptyRepl, NonEmpty, LastEmpty, Rewritten, Interleaved, Keys;
    forall k, p | 0 <= k < |ctx.v| && 0 <= p <= |t| ensures !(ctx.v[k].ind <= t[p..]) {
      assert ctx.v[k] in ctx.v;
    }
    RewrittenInterleaves(ctx, t, w);
    if w == [] {
      NothingBetween(t, Rewritten(ctx, t));
    }
  }

  lemma NothingBetween(t: Str, r: Str)
    requires Interleaved(t, [], r)
    ensures r == t
  {
    forall i | 0 <= i < |t| ensures r[i] == t[i] {
      assert Stands(t, [], r, i);
    }
  }
}
