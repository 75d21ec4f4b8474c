/** Concatenation of arrays, reusing the block of an operand when one is large enough, and removal
    of values. */
module ArraySums {
  import opened Values
  import opened PikeArray
  import opened MergeArrays
  import opened MergeOrder

  // ---- Concatenation ----

  /** cs[lo..hi) joined together. */
  function Concat(cs: seq<seq<Value>>, lo: nat, hi: nat): seq<Value>
    requires hi <= |cs|
  {
    if lo >= hi then [] else Concat(cs, lo, hi - 1) + cs[hi - 1]
  }

  lemma {:induction false} ConcatFront(cs: seq<seq<Value>>, lo: nat, hi: nat)
    requires lo < hi <= |cs|
    ensures Concat(cs, lo, hi) == cs[lo] + Concat(cs, lo + 1, hi)
  {
    if lo + 1 < hi {
      ConcatFront(cs, lo, hi - 1);
    } else {
      assert Concat(cs, lo, lo) == [];
    }
  }

  lemma {:induction false} ConcatSplit(cs: seq<seq<Value>>, lo: nat, mid: nat, hi: nat)
    requires lo <= mid <= hi <= |cs|
    ensures Concat(cs, lo, hi) == Concat(cs, lo, mid) + Concat(cs, mid, hi)
  {
    if mid < hi {
      ConcatSplit(cs, lo, mid, hi - 1);
    }
  }

  /** The operands: well-formed, with blocks of their own, and an operand given twice is referenced
      twice. */
  ghost predicate Operands(args: seq<Array>)
    reads set i | 0 <= i < |args| :: args[i], set i | 0 <= i < |args| :: args[i].block
  {
    && (forall i :: 0 <= i < |args| ==> args[i].Valid())
    && (forall i, j :: 0 <= i < |args| && 0 <= j < |args| && args[i] != args[j] ==> args[i].block != args[j].block)
    && (forall i, j :: 0 <= i < j < |args| && args[i] == args[j] ==> args[i].refs >= 2)
  }

  /** All operands but v still hold their contents and have blocks other than v's. */
  ghost predicate OthersHold(v: Array, args: seq<Array>, cs: seq<seq<Value>>)
    reads v`block, set i | 0 <= i < |args| :: args[i], set i | 0 <= i < |args| :: args[i].block
  {
    && |cs| == |args|
    && (forall i :: 0 <= i < |args| && args[i] != v ==>
          args[i].Valid() && args[i].block != v.block && args[i].Elements() == cs[i])
  }

  lemma ConcatBack(cs: seq<seq<Value>>, lo: nat, hi: nat)
    requires lo <= hi < |cs|
    ensures Concat(cs, lo, hi + 1) == Concat(cs, lo, hi) + cs[hi]
    ensures Concat(cs, lo, lo) == []
  {
  }

  /** Puts the operands before number e in front of it. */
  method FillBefore(v: Array, args: seq<Array>, e: nat, ghost cs: seq<seq<Value>>)
    requires e < |args| && v == args[e] && v.Valid() && OthersHold(v, args, cs) && v.Elements() == cs[e]
    requires forall i :: 0 <= i < |args| && i != e ==> args[i] != v
    requires v.item >= |Concat(cs, 0, e)|
    modifies v`item, v`size, v`types, v.block
    ensures v.Valid() && OthersHold(v, args, cs) && v.Elements() == Concat(cs, 0, e + 1)
    ensures v.item + v.size == old(v.item + v.size)
  {
    hide Concat;
    var tmp: nat := e;
    ConcatBack(cs, e, e);
    while tmp > 0
      invariant tmp <= e && v.Valid() && OthersHold(v, args, cs)
      invariant v.Elements() == Concat(cs, tmp, e + 1)
      invariant v.item >= |Concat(cs, 0, tmp)| && v.item + v.size == old(v.item + v.size)
    {
      tmp := tmp - 1;
      ConcatBack(cs, 0, tmp);
      ConcatFront(cs, tmp, e + 1);
      v.Prepend(args[tmp]);
    }
  }

  /** Puts the operands after number e behind it. */
  method FillBehind(v: Array, args: seq<Array>, e: nat, ghost cs: seq<seq<Value>>)
    requires e < |args| && v == args[e] && v.Valid() && OthersHold(v, args, cs)
    requires v.Elements() == Concat(cs, 0, e + 1)
    requires forall i :: 0 <= i < |args| && i != e ==> args[i] != v
    requires v.item + v.size + |Concat(cs, e + 1, |args|)| <= v.block.Length
    modifies v`size, v`types, v.block
    ensures v.Valid() && OthersHold(v, args, cs) && v.Elements() == Concat(cs, 0, |args|)
  {
    hide Concat;
    var tmp: nat := e + 1;
    while tmp < |args|
      invariant e < tmp <= |args| && v.Valid() && OthersHold(v, args, cs)
      invariant v.Elements() == Concat(cs, 0, tmp)
      invariant v.item + v.size + |Concat(cs, tmp, |args|)| <= v.block.Length
    {
      ConcatFront(cs, tmp, |args|);
      ConcatBack(cs, 0, tmp);
      v.Append(args[tmp]);
      tmp := tmp + 1;
    }
  }

  /** Room for what comes before and behind. */
  ghost predicate HasRoom(v: Array, size: nat, before: nat)
    reads v
  {
    v.item >= before && v.item + size - before <= v.block.Length
  }

  /** Unshared, with a block large enough for the result. */
  ghost predicate Offered(v: Array, size: nat)
    reads v
  {
    v.refs == 1 && v.block.Length >= size
  }

  /** What a scan of the operands up to number e knows: the sum of the sizes so far and the best
      operand whose block is large enough, if any. */
  ghost predicate Scanned(args: seq<Array>, cs: seq<seq<Value>>, size: nat, e: nat, tmp: nat, e2: int, tmp2: nat)
    reads set i | 0 <= i < |args| :: args[i]
  {
    && e <= |args| == |cs| && tmp == |Concat(cs, 0, e)| && -1 <= e2 < e
    && (e2 >= 0 ==> args[e2].refs == 1 && args[e2].block.Length >= size && tmp2 == |Concat(cs, 0, e2)|)
    && forall i :: 0 <= i < e && Offered(args[i], size) ==>
         e2 >= 0 && args[i].size <= args[e2].size && !HasRoom(args[i], size, |Concat(cs, 0, i)|)
  }

  /** Sum of the sizes of the operands. */
  method TotalSize(args: seq<Array>, ghost cs: seq<seq<Value>>) returns (size: nat)
    requires Operands(args) && Hold(args, cs)
    ensures size == |Concat(cs, 0, |args|)|
  {
    hide Concat;
    size := 0;
    var e := 0;
    ConcatNone(cs, 0);
    while e < |args|
      invariant 0 <= e <= |args| && size == |Concat(cs, 0, e)|
    {
      ConcatBack(cs, 0, e);
      size := size + args[e].size;
      e := e + 1;
    }
  }

  ghost predicate Hold(args: seq<Array>, cs: seq<seq<Value>>)
    reads set i | 0 <= i < |args| :: args[i], set i | 0 <= i < |args| :: args[i].block
  {
    |cs| == |args| && forall i :: 0 <= i < |args| ==> args[i].Elements() == cs[i]
  }

  /** Looks for the first operand with room on both sides (found), or else for the longest one whose block
      is large enough. */
  method FindRoom(args: seq<Array>, size: nat, ghost cs: seq<seq<Value>>) returns (found: bool, e2: int, tmp2: nat)
    requires Operands(args) && Hold(args, cs) && size == |Concat(cs, 0, |args|)|
    ensures -1 <= e2 < |args| && (found ==> e2 >= 0)
    ensures e2 >= 0 ==> args[e2].refs == 1 && tmp2 == |Concat(cs, 0, e2)| && args[e2].block.Length >= size
    ensures found ==> args[e2].item >= tmp2 && args[e2].item + size - tmp2 <= args[e2].block.Length
    ensures forall i :: 0 <= i < |args| && Offered(args[i], size) ==>
              e2 >= 0 && (found || args[i].size <= args[e2].size)
    ensures forall i :: 0 <= i < (if found then e2 else |args|) && Offered(args[i], size) ==>
              !HasRoom(args[i], size, |Concat(cs, 0, i)|)
  {
    hide Concat;
    found, e2, tmp2 := false, -1, 0;
    var tmp: nat := 0;
    var e := 0;
    ConcatNone(cs, 0);
    while e < |args|
      invariant 0 <= e <= |args| && Scanned(args, cs, size, e, tmp, e2, tmp2)
    {
      var v := args[e];
      if v.refs == 1 && v.block.Length >= size {
        if v.item >= tmp && v.item + size - tmp <= v.block.Length {
          return true, e, tmp;
        }
        if e2 < 0 || v.size > args[e2].size {
          tmp2 := tmp;
          e2 := e;
        }
      }
      ConcatBack(cs, 0, e);
      tmp := tmp + v.size;
      e := e + 1;
    }
  }

  lemma OthersOf(args: seq<Array>, e: nat, cs: seq<seq<Value>>)
    requires Operands(args) && Hold(args, cs) && e < |args| && args[e].refs == 1
    ensures OthersHold(args[e], args, cs)
    ensures forall i :: 0 <= i < |args| && i != e ==> args[i] != args[e]
  {
  }

  /** Builds the result in the block of operand number e2, first moving its elements if need be. */
  method JoinInPlace(v: Array, args: seq<Array>, e2: nat, tmp2: nat, fits: bool, ghost cs: seq<seq<Value>>)
    requires e2 < |args| && v == args[e2] && v.Valid() && OthersHold(v, args, cs)
    requires v.Elements() == cs[e2] && forall i :: 0 <= i < |args| && i != e2 ==> args[i] != v
    requires tmp2 == |Concat(cs, 0, e2)| && v.block.Length >= |Concat(cs, 0, |args|)|
    requires fits ==> v.item >= tmp2 && v.item + |Concat(cs, 0, |args|)| - tmp2 <= v.block.Length
    modifies v`item, v`size, v`types, v.block
    ensures v.Valid() && v.Elements() == Concat(cs, 0, |args|)
    ensures OthersHold(v, args, cs)
  {
    hide Concat;
    ConcatSplit(cs, 0, e2, |args|);
    ConcatFront(cs, e2, |args|);
    if !fits {
      v.MoveWindow(tmp2);
    }
    FillBefore(v, args, e2, cs);
    FillBehind(v, args, e2, cs);
  }

  /** Joins the operands. The result may be one of them, altered, or a new array; operands that
      others refer to keep their elements. */
  method AddArrays(args: seq<Array>, ghost cs: seq<seq<Value>>) returns (r: Array)
    requires Operands(args) && Hold(args, cs)
    modifies set i | 0 <= i < |args| :: args[i], set i | 0 <= i < |args| :: args[i].block
    ensures r.Valid() && r.Elements() == Concat(cs, 0, |args|)
    ensures forall i :: 0 <= i < |args| && old(args[i].refs) != 1 ==> args[i].Elements() == cs[i]
    ensures (forall i :: 0 <= i < |args| ==> old(args[i].refs) != 1) ==> fresh(r)
    ensures (exists i :: 0 <= i < |args| && old(Offered(args[i], |Concat(cs, 0, |args|)|))) ==>
              exists i :: 0 <= i < |args| && old(Offered(args[i], |Concat(cs, 0, |args|)|)) && r == args[i]
  {
    hide Concat, Operands, Hold;
    var size := TotalSize(args, cs);
    var found, e2, tmp2 := FindRoom(args, size, cs);
    if e2 >= 0 {
      OperandAt(args, e2, cs);
      OthersOf(args, e2, cs);
      JoinInPlace(args[e2], args, e2, tmp2, found, cs);
      r := args[e2];
    } else if |args| > 0 && args[0].refs == 1 {
      OperandAt(args, 0, cs);
      OthersOf(args, 0, cs);
      r := JoinAfterFirst(args, size, cs);
    } else {
      r := JoinNew(args, size, cs);
    }
  }

  lemma OperandAt(args: seq<Array>, e: nat, cs: seq<seq<Value>>)
    requires Operands(args) && Hold(args, cs) && e < |args|
    ensures |cs| == |args| && args[e].Valid() && args[e].Elements() == cs[e]
  {
  }

  /** Operands from number e on still hold their contents and are not r. */
  ghost predicate Pending(r: Array, args: seq<Array>, e: nat, cs: seq<seq<Value>>)
    reads r`block, set i | 0 <= i < |args| :: args[i], set i | 0 <= i < |args| :: args[i].block
  {
    && |cs| == |args|
    && forall i :: e <= i < |args| ==>
         args[i].Valid() && args[i] != r && args[i].block != r.block && args[i].Elements() == cs[i]
  }

  /** The first done elements of r are the operands before number e. */
  ghost predicate Joined(r: Array, cs: seq<seq<Value>>, e: nat, done: nat)
    requires e <= |cs|
    reads r, r.block
  {
    && r.item + r.size <= r.block.Length
    && done <= r.size
    && r.Elements()[..done] == Concat(cs, 0, e)
    && Covers(r.types, Concat(cs, 0, e))
  }

  /** Writes the operands from number e on behind the done elements already in place. */
  method JoinRest(r: Array, args: seq<Array>, e0: nat, done0: nat, ghost cs: seq<seq<Value>>)
    requires e0 <= |args| == |cs| && Joined(r, cs, e0, done0) && Pending(r, args, e0, cs)
    requires r.size == |Concat(cs, 0, |args|)|
    modifies r`types, r.block
    ensures r.Valid() && r.Elements() == Concat(cs, 0, |args|) && Pending(r, args, e0, cs)
  {
    hide Concat, Covers;
    var e: nat, done: nat := e0, done0;
    while e < |args|
      invariant e <= |args| && Joined(r, cs, e, done) && Pending(r, args, e0, cs) && e0 <= e
    {
      ConcatBack(cs, 0, e);
      ConcatSplit(cs, 0, e + 1, |args|);
      CoversBoth(r.types, Concat(cs, 0, e), args[e].types, cs[e]);
      r.Overwrite(done, args[e]);
      done := done + args[e].size;
      e := e + 1;
    }
    assert r.Elements()[..done] == r.Elements();
  }

  /** Without a large enough block, an unshared first operand is resized and the others are written
      behind it. */
  method JoinAfterFirst(args: seq<Array>, size: nat, ghost cs: seq<seq<Value>>) returns (r: Array)
    requires |args| > 0 && args[0].Valid() && OthersHold(args[0], args, cs)
    requires args[0].Elements() == cs[0] && forall i :: 0 < i < |args| ==> args[i] != args[0]
    requires size == |Concat(cs, 0, |args|)|
    modifies args[0], args[0].block
    ensures r.Valid() && r.Elements() == Concat(cs, 0, |args|)
    ensures forall i :: 0 < i < |args| ==> args[i].Elements() == cs[i]
  {
    hide Concat, Covers;
    var first := args[0];
    ConcatFront(cs, 0, |args|);
    ConcatBack(cs, 0, 0);
    assert Concat(cs, 0, 1) == cs[0];
    var done: nat := first.size;
    r := Resize(first, size);
    CoversPrefix(r.types, r.Elements(), done);
    assert r.Elements()[..done] == cs[0];
    JoinRest(r, args, 1, done, cs);
  }

  /** If that is shared, a new array is made and every operand written into it. */
  method JoinNew(args: seq<Array>, size: nat, ghost cs: seq<seq<Value>>) returns (r: Array)
    requires Operands(args) && Hold(args, cs) && size == |Concat(cs, 0, |args|)|
    ensures fresh(r) && r.Valid() && r.Elements() == Concat(cs, 0, |args|)
    ensures forall i :: 0 <= i < |args| ==> args[i].Elements() == cs[i]
  {
    hide Concat, Covers;
    ConcatNone(cs, 0);
    r := new Array(size, 0);
    r.types := {};
    CoversNone();
    JoinRest(r, args, 0, 0, cs);
  }

  lemma CoversNone()
    ensures Covers({}, [])
  {
  }

  lemma CoversPrefix(t: TypeField, s: seq<Value>, n: nat)
    requires Covers(t, s) && n <= |s|
    ensures Covers(t, s[..n])
  {
  }

  lemma ConcatNone(cs: seq<seq<Value>>, k: nat)
    requires k <= |cs|
    ensures Concat(cs, k, k) == []
  {
  }

  // ---- Removing values ----

  lemma WithoutStep(s: seq<Value>, b: seq<Value>, n: nat)
    requires n < |s|
    ensures Without(s[..n + 1], b) == Without(s[..n], b) + if s[n] in b then [] else [s[n]]
    ensures Without(s[..0], b) == []
  {
    assert s[..n + 1][..n] == s[..n];
  }

  lemma {:induction false} WithoutShrinks(s: seq<Value>, b: seq<Value>)
    ensures |Without(s, b)| <= |s|
    ensures forall k :: 0 <= k < |Without(s, b)| ==> Without(s, b)[k] in s
  {
    if s != [] {
      WithoutShrinks(s[..|s| - 1], b);
    }
  }

  lemma {:induction false} WithoutAll(s: seq<Value>, b: seq<Value>)
    requires |Without(s, b)| == |s|
    ensures Without(s, b) == s
  {
    if s != [] {
      WithoutShrinks(s[..|s| - 1], b);
      WithoutAll(s[..|s| - 1], b);
    }
  }

  /** The loop that moves the other elements down. */
  method MoveDown(a: Array, b: Value) returns (target: nat, types: TypeField, ghost kept: seq<Value>)
    requires a.Valid()
    modifies a.block
    ensures kept == Without(old(a.Elements()), [b]) && Covers(types, kept) && target == |kept| <= a.size
    ensures forall k :: a.item <= k < a.item + target ==> a.block[k] == kept[k - a.item]
  {
    hide Without, Covers;
    ghost var was := a.Elements();
    var ip, lo, size := a.block, a.item, a.size;
    kept, types, target := [], {}, 0;
    var from: nat := 0;
    WithoutNone([b]);
    CoversNone();
    assert was[..0] == [];
    while from < size
      invariant target == |kept| <= from <= size == |was|
      invariant kept == Without(was[..from], [b]) && Covers(types, kept)
      invariant forall k :: lo <= k < lo + target ==> ip[k] == kept[k - lo]
      invariant forall k :: lo + from <= k < lo + size ==> ip[k] == was[k - lo]
    {
      WithoutStep(was, [b], from);
      var x := ip[lo + from];
      if x != b {
        CoversBoth(types, kept, {Tag(x)}, [x]);
        types := types + {Tag(x)};
        if from != target {
          ip[lo + target] := x;
        }
        kept := kept + [x];
        target := target + 1;
      }
      from := from + 1;
    }
    assert was[..from] == was;
  }

  /** Removes a value from an array nobody else refers to. */
  method CompactInPlace(a: Array, b: Value)
    requires a.Valid()
    modifies a`size, a`types, a.block
    ensures a.Valid() && a.Elements() == Without(old(a.Elements()), [b])
  {
    hide Without, Covers;
    ghost var was := a.Elements();
    var target, types, kept := MoveDown(a, b);
    if a.size != target {
      a.types := types;
      a.size := target;
    } else {
      WithoutAll(was, [b]);
    }
    WindowIs(a.block[..], a.item, kept);
  }

  lemma WindowIs(blk: seq<Value>, item: nat, s: seq<Value>)
    requires item + |s| <= |blk| && forall k :: item <= k < item + |s| ==> blk[k] == s[k - item]
    ensures Window(blk, item, |s|) == s
  {
  }

  lemma WithoutNone(b: seq<Value>)
    ensures Without([], b) == []
  {
  }

  /** Copies the elements other than b into a new array, given the first place where b occurs. */
  method CopyWithout(a: Array, b: Value, off: nat) returns (r: Array)
    requires a.Valid() && off < a.size && a.Elements()[off] == b
    requires forall k :: 0 <= k < off ==> a.Elements()[k] != b
    ensures fresh(r) && fresh(r.block) && r.Valid() && r.Elements() == Without(a.Elements(), [b])
  {
    hide Without, Covers;
    ghost var s := a.Elements();
    ghost var kept: seq<Value> := [];
    r := new Array(a.size - 1, 0);
    var types: TypeField := {};
    var from, target: nat := 0, 0;
    WithoutNone([b]);
    CoversNone();
    assert s[..0] == [];
    while from < a.size
      invariant target == |kept| <= from <= a.size
      invariant from <= off ==> target == from
      invariant from > off ==> target < from
      invariant kept == Without(s[..from], [b]) && Covers(types, kept)
      invariant forall k :: 0 <= k < target ==> r.block[k] == kept[k]
      modifies r.block
    {
      WithoutStep(s, [b], from);
      var x := a.block[a.item + from];
      assert x == s[from];
      if from < off || x != b {
        CoversBoth(types, kept, {Tag(x)}, [x]);
        types := types + {Tag(x)};
        r.block[target] := x;
        kept := kept + [x];
        target := target + 1;
      }
      from := from + 1;
    }
    assert s[..from] == s;
    r.size := target;
    r.types := types;
    assert r.Elements() == kept;
  }

  /** Index of the first element equal to v from start on, or -1. */
  method FastArraySearch(a: Array, v: Value, start: nat) returns (e: int)
    requires a.Valid()
    ensures e == -1 ==> forall k :: start <= k < a.size ==> a.Elements()[k] != v
    ensures e != -1 ==> start <= e < a.size && a.Elements()[e] == v
                        && forall k :: start <= k < e ==> a.Elements()[k] != v
  {
    e := start;
    while e < a.size
      invariant start <= e && forall k :: start <= k < e && k < a.size ==> a.Elements()[k] != v
    {
      if a.block[a.item + e] == v {
        return;
      }
      e := e + 1;
    }
    e := -1;
  }

  method CopyArray(a: Array) returns (r: Array)
    requires a.Valid()
    ensures fresh(r) && fresh(r.block) && r.Valid() && r.Elements() == a.Elements()
  {
    r := CopyOf(a, 0, a.size, 0);
    assert a.Elements()[0..a.size] == a.Elements();
  }

  /** Removes a value from an array others refer to: always a new array. */
  method SubtractShared(a: Array, b: Value) returns (r: Array)
    requires a.Valid()
    ensures fresh(r) && fresh(r.block) && r.Valid() && r.Elements() == Without(a.Elements(), [b])
  {
    hide Without;
    var off := FastArraySearch(a, b, 0);
    if off == -1 {
      r := CopyArray(a);
      NothingToRemove(a.Elements(), [b]);
    } else {
      r := CopyWithout(a, b, off);
    }
  }

  /** Removes every occurrence of one value. */
  method SubtractArrayValue(a: Array, b: Value) returns (r: Array)
    requires a.Valid()
    modifies a, a.block
    ensures r.Valid() && r.Elements() == Without(old(a.Elements()), [b])
    ensures old(a.refs) > 1 ==> a.Valid() && a.Elements() == old(a.Elements()) && fresh(r)
    ensures old(a.refs) <= 1 && r.size > 0 ==> r == a
    ensures r == a ==> a.refs == old(a.refs) + 1
  {
    hide Without;
    ghost var was := a.Elements();
    if a.size == 0 {
      r := CopyArray(a);
      NothingToRemove(was, [b]);
      return;
    }
    if a.refs > 1 {
      r := SubtractShared(a, b);
    } else if b == IntVal(0) || Tag(b) in a.types {
      CompactInPlace(a, b);
      a.refs := a.refs + 1;
      r := a;
    } else {
      forall k | 0 <= k < |was| ensures was[k] !in [b] {
        assert Tag(was[k]) in a.types;
      }
      NothingToRemove(was, [b]);
      a.refs := a.refs + 1;
      return a;
    }
    if r.size == 0 {
      assert r.Elements() == [];
      r := new Array(0, 0);
    }
  }

  method SubtractByMerging(a: Array, b: Array) returns (r: Array)
    requires a.Valid() && b.Valid()
    ensures fresh(r) && fresh(r.block) && r.Valid() && r.Elements() == Without(a.Elements(), b.Elements())
  {
    hide Without, Merged;
    var s, t := a.block[a.item..a.item + a.size], b.block[b.item..b.item + b.size];
    SubIsWithout(s, t);
    var z := MergeArrayWithOrder(s, t, Sub, a.types, b.types);
    r := new Array(|z|, 0);
    forall k | 0 <= k < |z| {
      r.block[k] := z[k];
    }
    r.types := a.types + b.types;
    assert r.Elements() == z;
    WithoutCovered(a.types, s, t);
  }

  /** Array difference: one value, nothing in common, or a merge. */
  method SubtractArrays(a: Array, b: Array) returns (r: Array)
    requires a.Valid() && b.Valid()
    requires a == b ==> a.refs > 1
    requires a != b ==> a.block != b.block
    modifies a, a.block
    ensures r.Valid() && r.Elements() == Without(old(a.Elements()), old(b.Elements()))
    ensures old(a.refs) > 1 ==> a.Elements() == old(a.Elements()) && r != a
    ensures old(a.refs == 1 && b.size != 1 && a.types * b.types == {}) ==> r == a
  {
    hide Without;
    ghost var s, t := a.Elements(), b.Elements();
    if b.size == 1 {
      var x := b.block[b.item];
      assert t == [x];
      r := SubtractArrayValue(a, x);
    } else if b.size > 0 && a.types * b.types != {} {
      r := SubtractByMerging(a, b);
    } else {
      DisjointTypes(a.types, b.types, s, t);
      NothingToRemove(s, t);
      if a.refs == 1 {
        a.refs := a.refs + 1;
        return a;
      }
      r := CopyArray(a);
    }
  }

  lemma WithoutCovered(types: TypeField, s: seq<Value>, t: seq<Value>)
    requires Covers(types, s)
    ensures Covers(types, Without(s, t))
  {
    WithoutShrinks(s, t);
    var r := Without(s, t);
    forall k | 0 <= k < |r| ensures Tag(r[k]) in types {
      var j :| 0 <= j < |s| && s[j] == r[k];
    }
  }

  lemma DisjointTypes(ta: TypeField, tb: TypeField, s: seq<Value>, t: seq<Value>)
    requires Covers(ta, s) && Covers(tb, t) && (|t| == 0 || ta * tb == {})
    ensures forall k :: 0 <= k < |s| ==> s[k] !in t
  {
    forall k, j | 0 <= k < |s| && 0 <= j < |t| ensures s[k] != t[j] {
      assert Tag(s[k]) in ta && Tag(t[j]) in tb;
      assert Tag(s[k]) !in ta * tb;
    }
  }
}
