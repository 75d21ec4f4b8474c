/** The longest ordered subsequence of an array, found with one stack of best endings and back
    links. The elements stand for their places in the total order of the comparison functions. */
module OrderedSequence {

  /** Ascending indices of elements that never get smaller. */
  ghost predicate Ordered(a: seq<int>, s: seq<int>) {
    && (forall k :: 0 <= k < |s| ==> 0 <= s[k] < |a|)
    && (forall k, l :: 0 <= k < l < |s| ==> s[k] < s[l] && a[s[k]] <= a[s[l]])
  }

  /** s is a longest such sequence. */
  ghost predicate LongestOrdered(a: seq<int>, s: seq<int>) {
    Ordered(a, s) && forall t :: Ordered(a, t) ==> |t| <= |s|
  }

  /** The first place of the stack with an element greater than number i, or top. */
  method FindGt(a: seq<int>, i: nat, stack: array<int>, top: nat) returns (pos: nat)
    requires i < |a| && top <= stack.Length
    requires forall p :: 0 <= p < top ==> 0 <= stack[p] < |a|
    requires forall p, q :: 0 <= p < q < top ==> a[stack[p]] <= a[stack[q]]
    ensures pos <= top
    ensures forall p :: 0 <= p < pos ==> a[stack[p]] <= a[i]
    ensures forall p :: pos <= p < top ==> a[i] < a[stack[p]]
  {
    if top == 0 || !(a[i] < a[stack[top - 1]]) {
      return top;
    }
    var l, h := 0, top;
    while l < h
      invariant 0 <= l <= h <= top
      invariant forall p :: 0 <= p < l ==> a[stack[p]] <= a[i]
      invariant forall p :: h <= p < top ==> a[i] < a[stack[p]]
    {
      var middle := (l + h) / 2;
      if !(a[stack[middle]] > a[i]) {
        l := middle + 1;
      } else {
        h := middle;
      }
    }
    return l;
  }

  /** paths[e] is an ordered sequence ending in e, and link e leads to the sequence without its end. */
  ghost predicate LinkOk(a: seq<int>, links: seq<int>, paths: seq<seq<int>>, e: nat)
    requires e < |paths| <= |links|
  {
    && |paths[e]| > 0 && paths[e][|paths[e]| - 1] == e && Ordered(a, paths[e])
    && (if |paths[e]| == 1 then links[e] == -1
        else 0 <= links[e] < e && paths[e] == paths[links[e]] + [e])
  }

  ghost predicate Linked(a: seq<int>, links: seq<int>, paths: seq<seq<int>>) {
    && |paths| <= |links| == |a|
    && forall e :: 0 <= e < |paths| ==> LinkOk(a, links, paths, e)
  }

  /** Place p of the stack holds the end of an ordered sequence of length p + 1, the smallest end any
      such sequence has. */
  ghost predicate Best(a: seq<int>, stack: seq<int>, top: nat, paths: seq<seq<int>>) {
    && top <= |paths| <= |a| && top <= |stack|
    && (forall p :: 0 <= p < top ==> 0 <= stack[p] < |paths| && |paths[stack[p]]| == p + 1)
    && (forall p, q :: 0 <= p < q < top ==> a[stack[p]] <= a[stack[q]])
    && (forall t :: Ordered(a, t) && t != [] && t[|t| - 1] < |paths| ==>
          |t| <= top && a[stack[|t| - 1]] <= a[t[|t| - 1]])
  }

  /** A sequence that ends in the new element gives one without it. */
  lemma Shorter(a: seq<int>, t: seq<int>)
    requires Ordered(a, t) && t != []
    ensures Ordered(a, t[..|t| - 1])
    ensures |t| > 1 ==> t[|t| - 2] < t[|t| - 1] && a[t[|t| - 2]] <= a[t[|t| - 1]]
  {
  }

  /** Putting element i on place pos keeps the stack best. */
  lemma StaysBest(a: seq<int>, stack: seq<int>, top: nat, paths: seq<seq<int>>, pos: nat, path: seq<int>)
    requires Best(a, stack, top, paths) && |paths| < |a| && pos <= top && pos < |stack|
    requires forall p :: 0 <= p < pos ==> a[stack[p]] <= a[|paths|]
    requires forall p :: pos <= p < top ==> a[|paths|] < a[stack[p]]
    requires |path| == pos + 1
    ensures Best(a, stack[pos := |paths|], if pos == top then top + 1 else top, paths + [path])
  {
    var i := |paths|;
    var stack' := stack[pos := i];
    var top' := if pos == top then top + 1 else top;
    forall t | Ordered(a, t) && t != [] && t[|t| - 1] < i + 1
      ensures |t| <= top' && a[stack'[|t| - 1]] <= a[t[|t| - 1]]
    {
      if t[|t| - 1] == i && |t| > 1 {
        Shorter(a, t);
        var u := t[..|t| - 1];
        assert u[|u| - 1] < |paths|;
        assert a[stack[|u| - 1]] <= a[u[|u| - 1]] <= a[i];
      }
    }
  }

  lemma PathGrows(a: seq<int>, path: seq<int>, i: nat)
    requires Ordered(a, path) && i < |a|
    requires path != [] ==> path[|path| - 1] < i && a[path[|path| - 1]] <= a[i]
    ensures Ordered(a, path + [i])
  {
    forall k | 0 <= k < |path| ensures path[k] < i && a[path[k]] <= a[i] {
      if k < |path| - 1 {
        assert path[k] < path[|path| - 1];
      }
    }
  }

  lemma LinkAt(a: seq<int>, links: seq<int>, paths: seq<seq<int>>, e: nat)
    requires Linked(a, links, paths) && e < |paths|
    ensures |paths| <= |links| == |a| && |paths[e]| > 0 && paths[e][|paths[e]| - 1] == e && Ordered(a, paths[e])
    ensures if |paths[e]| == 1 then links[e] == -1
            else 0 <= links[e] < e && paths[e] == paths[links[e]] + [e]
  {
    assert LinkOk(a, links, paths, e);
  }

  /** Reads a sequence back along the links. */
  method ReadBack(a: seq<int>, links: array<int>, ltop0: nat, top0: nat, ghost paths: seq<seq<int>>)
    returns (res: seq<int>)
    requires Linked(a, links[..], paths) && ltop0 < |paths| && |paths[ltop0]| == top0
    ensures res == paths[ltop0]
  {
    hide Linked, Ordered;
    var out := new int[top0](_ => 0);
    var ltop: int, top := ltop0, top0;
    ghost var front := paths[ltop0];
    while ltop != -1
      invariant 0 <= top <= top0 && -1 <= ltop < |paths| && |front| == top
      invariant if ltop == -1 then top == 0 else front == paths[ltop]
      invariant front + out[top..] == paths[ltop0]
      decreases top
    {
      LinkAt(a, links[..], paths, ltop);
      ghost var rest := out[top..];
      top := top - 1;
      out[top] := ltop;
      assert out[top..] == [ltop] + rest;
      assert front == front[..top] + [ltop];
      front := front[..top];
      ltop := links[ltop];
    }
    assert out[0..] == out[..];
    res := out[..];
  }

  /** The state of the search after the first |paths| elements. */
  ghost predicate Sound(a: seq<int>, stack: seq<int>, links: seq<int>, top: nat, ltop: int, paths: seq<seq<int>>) {
    && |stack| == |links| == |a| && |paths| <= |a|
    && Linked(a, links, paths) && Best(a, stack, top, paths)
    && (if |paths| == 0 then top == 0 else 0 <= ltop < |paths| && |paths[ltop]| == top)
  }

  /** Where the new element's link leads, and the sequence it ends. */
  function LinkFor(stack: seq<int>, pos: nat): int
    requires pos <= |stack|
  {
    if pos != 0 then stack[pos - 1] else -1
  }

  lemma SoundStep(a: seq<int>, stack: seq<int>, links: seq<int>, top: nat, ltop: int, paths: seq<seq<int>>, pos: nat)
    returns (paths': seq<seq<int>>)
    requires Sound(a, stack, links, top, ltop, paths) && |paths| < |a| && pos <= top && top <= |stack|
    requires forall p :: 0 <= p < top ==> 0 <= stack[p] < |a|
    requires forall p :: 0 <= p < pos ==> a[stack[p]] <= a[|paths|]
    requires forall p :: pos <= p < top ==> a[|paths|] < a[stack[p]]
    ensures pos < |stack| && |paths'| == |paths| + 1
    ensures Sound(a, stack[pos := |paths|], links[|paths| := LinkFor(stack, pos)],
                  if pos == top then top + 1 else top, if pos == top then |paths| else ltop, paths')
  {
    var i := |paths|;
    var link := LinkFor(stack, pos);
    StackFacts(a, stack, top, paths);
    var path: seq<int> := if pos == 0 then [i] else paths[link] + [i];
    hide Best, Linked;
    StaysBest(a, stack, top, paths, pos, path);
    StaysLinked(a, links, paths, link, path);
    paths' := paths + [path];
  }

  lemma NothingYet(a: seq<int>, stack: seq<int>, links: seq<int>)
    requires |stack| == |links| == |a|
    ensures Sound(a, stack, links, 0, -1, [])
  {
  }

  /** Writes the link of element i and puts it on place pos. */
  method Store(stack: array<int>, links: array<int>, i: nat, pos: nat)
    requires stack != links && i < links.Length && pos < stack.Length
    modifies stack, links
    ensures links[..] == old(links[..])[i := LinkFor(old(stack[..]), pos)]
    ensures stack[..] == old(stack[..])[pos := i]
  {
    if pos != 0 {
      links[i] := stack[pos - 1];
    } else {
      links[i] := -1;
    }
    stack[pos] := i;
  }

  /** Takes in element i. */
  method OneElement(a: seq<int>, i: nat, stack: array<int>, links: array<int>, top0: nat, ltop0: int,
                    ghost paths: seq<seq<int>>)
    returns (top: nat, ltop: int, ghost next: seq<seq<int>>)
    requires stack != links && i == |paths| < |a| && Sound(a, stack[..], links[..], top0, ltop0, paths)
    modifies stack, links
    ensures |next| == i + 1 && Sound(a, stack[..], links[..], top, ltop, next)
  {
    hide Linked, Best, Ordered, Sound;
    SoundFacts(a, stack[..], links[..], top0, ltop0, paths);
    top, ltop := top0, ltop0;
    var pos := FindGt(a, i, stack, top);
    next := SoundStep(a, stack[..], links[..], top, ltop, paths, pos);
    if pos == top {
      top := top + 1;
      ltop := i;
    }
    Store(stack, links, i, pos);
  }

  method LongestOrderedSequence(a: seq<int>) returns (res: seq<int>)
    ensures LongestOrdered(a, res)
  {
    hide LongestOrdered, Linked, Best, Ordered, Sound;
    if |a| == 0 {
      NoElements(a);
      return [];
    }
    var stack := new int[|a|](_ => 0);
    var links := new int[|a|](_ => 0);
    var top: nat, ltop: int := 0, -1;
    ghost var paths: seq<seq<int>> := [];
    var i := 0;
    NothingYet(a, stack[..], links[..]);
    while i < |a|
      invariant 0 <= i == |paths| <= |a|
      invariant Sound(a, stack[..], links[..], top, ltop, paths)
    {
      top, ltop, paths := OneElement(a, i, stack, links, top, ltop, paths);
      i := i + 1;
    }
    SoundFacts(a, stack[..], links[..], top, ltop, paths);
    res := ReadBack(a, links, ltop, top, paths);
    IsLongest(a, stack[..], top, paths, res);
  }

  lemma SoundFacts(a: seq<int>, stack: seq<int>, links: seq<int>, top: nat, ltop: int, paths: seq<seq<int>>)
    requires Sound(a, stack, links, top, ltop, paths)
    ensures |stack| == |links| == |a| && top <= |stack|
    ensures forall p :: 0 <= p < top ==> 0 <= stack[p] < |a|
    ensures forall p, q :: 0 <= p < q < top ==> a[stack[p]] <= a[stack[q]]
    ensures Linked(a, links, paths) && Best(a, stack, top, paths)
    ensures |paths| > 0 ==> 0 <= ltop < |paths| && |paths[ltop]| == top && Ordered(a, paths[ltop])
  {
    StackFacts(a, stack, top, paths);
    if |paths| > 0 {
      LinkAt(a, links, paths, ltop);
    }
  }

  lemma StackFacts(a: seq<int>, stack: seq<int>, top: nat, paths: seq<seq<int>>)
    requires Best(a, stack, top, paths)
    ensures top <= |stack| && top <= |paths|
    ensures forall p :: 0 <= p < top ==> 0 <= stack[p] < |paths| && |paths[stack[p]]| == p + 1
    ensures forall p, q :: 0 <= p < q < top ==> a[stack[p]] <= a[stack[q]]
  {
  }

  /** Earlier links keep their meaning. */
  lemma LinkOkStays(a: seq<int>, links: seq<int>, paths: seq<seq<int>>, e: nat, from: int, path: seq<int>)
    requires e < |paths| < |links| && LinkOk(a, links, paths, e)
    ensures LinkOk(a, links[|paths| := from], paths + [path], e)
  {
    hide Ordered;
    var links', paths' := links[|paths| := from], paths + [path];
    assert paths'[e] == paths[e] && links'[e] == links[e];
    if |paths[e]| != 1 {
      assert paths'[links[e]] == paths[links[e]];
    }
  }

  /** The new link. */
  lemma LinkOkNew(a: seq<int>, links: seq<int>, paths: seq<seq<int>>, from: int, path: seq<int>)
    requires Linked(a, links, paths) && |paths| < |a| && -1 <= from < |paths|
    requires from >= 0 ==> a[from] <= a[|paths|]
    requires path == if from == -1 then [|paths|] else paths[from] + [|paths|]
    ensures |paths| < |links| && LinkOk(a, links[|paths| := from], paths + [path], |paths|)
  {
    hide Linked, Ordered;
    var i := |paths|;
    Fits(a, links, paths);
    if from == -1 {
      EmptyOrdered(a);
      PathGrows(a, [], i);
      assert [] + [i] == [i];
    } else {
      LinkAt(a, links, paths, from);
      PathGrows(a, paths[from], i);
      assert (paths + [path])[from] == paths[from];
    }
  }

  lemma EmptyOrdered(a: seq<int>)
    ensures Ordered(a, [])
  {
  }

  lemma Fits(a: seq<int>, links: seq<int>, paths: seq<seq<int>>)
    requires Linked(a, links, paths)
    ensures |paths| <= |links| == |a|
  {
  }

  lemma StaysLinked(a: seq<int>, links: seq<int>, paths: seq<seq<int>>, from: int, path: seq<int>)
    requires Linked(a, links, paths) && |paths| < |a| && -1 <= from < |paths|
    requires from >= 0 ==> a[from] <= a[|paths|]
    requires path == if from == -1 then [|paths|] else paths[from] + [|paths|]
    ensures Linked(a, links[|paths| := from], paths + [path])
  {
    LinkOkNew(a, links, paths, from, path);
    hide LinkOk, Ordered;
    var links', paths' := links[|paths| := from], paths + [path];
    forall e | 0 <= e < |paths'| ensures LinkOk(a, links', paths', e) {
      if e < |paths| {
        LinkOkStays(a, links, paths, e, from, path);
      }
    }
  }

  lemma NoElements(a: seq<int>)
    requires a == []
    ensures LongestOrdered(a, [])
  {
    assert forall t: seq<int> :: |t| > 0 ==> !Ordered(a, t) by {
      forall t: seq<int> | |t| > 0 ensures !Ordered(a, t) {
        assert !(0 <= t[0] < |a|);
      }
    }
  }

  lemma IsLongest(a: seq<int>, stack: seq<int>, top: nat, paths: seq<seq<int>>, res: seq<int>)
    requires Best(a, stack, top, paths) && |paths| == |a| && Ordered(a, res) && |res| == top
    ensures LongestOrdered(a, res)
  {
    forall t | Ordered(a, t) ensures |t| <= top {
      if t != [] {
        assert t[|t| - 1] < |paths|;
      }
    }
  }
}
