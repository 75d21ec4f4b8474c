/** Arrays as windows into a block: the elements may start anywhere in the block and can grow and
    shrink at either end. */
module PikeArray {
  import opened Values

  // ---- Windows of a block, as sequences ----

  function Window(blk: seq<Value>, item: nat, size: nat): seq<Value> {
    if item + size <= |blk| then blk[item..item + size] else []
  }

  /** A block after n values have been copied into it from place source of another. */
  function Moved(blk: seq<Value>, target: nat, from: seq<Value>, source: nat, n: nat): (r: seq<Value>)
    requires source + n <= |from| && target + n <= |blk|
    ensures |r| == |blk|
  {
    blk[..target] + from[source..source + n] + blk[target + n..]
  }

  /** Windows on the copied values, before them and behind them. */
  lemma MovedWindows(blk: seq<Value>, target: nat, from: seq<Value>, source: nat, n: nat, item: nat, size: nat)
    requires source + n <= |from| && target + n <= |blk| && item + size <= |blk|
    ensures var r := Moved(blk, target, from, source, n);
      && (target <= item && item + size <= target + n ==>
            Window(r, item, size) == Window(from, source + (item - target), size))
      && (item + size <= target || target + n <= item ==> Window(r, item, size) == Window(blk, item, size))
  {
    var r := Moved(blk, target, from, source, n);
    assert forall k :: target <= k < target + n ==> r[k] == from[k - target + source];
    assert forall k :: 0 <= k < target || target + n <= k < |blk| ==> r[k] == blk[k];
    if target <= item && item + size <= target + n {
      assert r[item..item + size] == from[source + (item - target)..source + (item - target) + size];
    } else if item + size <= target || target + n <= item {
      assert r[item..item + size] == blk[item..item + size];
    }
  }

  lemma JoinWindows(blk: seq<Value>, item: nat, m: nat, n: nat)
    requires item + m + n <= |blk|
    ensures Window(blk, item, m + n) == Window(blk, item, m) + Window(blk, item + m, n)
  {
  }

  /** A window with one place left open: what is before it and what is behind it. */
  ghost predicate Opened(now: seq<Value>, was: seq<Value>, index: nat) {
    && index <= |was| && |now| == |was| + 1
    && now[..index] == was[..index] && now[index + 1..] == was[index..]
  }

  lemma OpenedWindow(blk: seq<Value>, item: nat, size: nat, was: seq<Value>, index: nat)
    requires item + size + 1 <= |blk| && size == |was| && index <= size
    requires Window(blk, item, index) == was[..index] && Window(blk, item + index + 1, size - index) == was[index..]
    ensures Opened(Window(blk, item, size + 1), was, index)
  {
  }

  lemma FillOpened(now: seq<Value>, was: seq<Value>, index: nat, s: Value)
    requires Opened(now, was, index)
    ensures now[index := s] == was[..index] + [s] + was[index..]
  {
    assert now == now[..index] + [now[index]] + now[index + 1..];
  }

  lemma SubWindow(blk: seq<Value>, item: nat, size: nat, a: nat, n: nat)
    requires item + size <= |blk| && a + n <= size
    ensures Window(blk, item, size)[a..a + n] == Window(blk, item + a, n)
  {
  }

  lemma CoversBoth(t: TypeField, a: seq<Value>, u: TypeField, b: seq<Value>)
    requires Covers(t, a) && Covers(u, b)
    ensures Covers(t + u, a + b)
  {
  }

  lemma CoversPart(t: TypeField, s: seq<Value>, a: nat, b: nat)
    requires Covers(t, s) && a <= b <= |s|
    ensures Covers(t, s[a..b])
  {
  }

  lemma CoversInserted(t: TypeField, a: seq<Value>, s: Value, index: nat)
    requires Covers(t, a) && index <= |a|
    ensures Covers(t + {Tag(s)}, a[..index] + [s] + a[index..])
  {
  }

  lemma CoversRemoved(t: TypeField, a: seq<Value>, index: nat)
    requires Covers(t, a) && index < |a|
    ensures Covers(t, a[..index] + a[index + 1..])
  {
  }

  function Zeros(n: nat): (r: seq<Value>)
    ensures |r| == n && forall k :: 0 <= k < n ==> r[k] == IntVal(0)
  {
    seq(n, _ => IntVal(0))
  }

  class Array {
    /** The allocated block; its length is the malloced size. */
    var block: array<Value>
    var item: nat
    var size: nat
    /** The types that may occur among the elements. */
    var types: TypeField
    var refs: int

    ghost predicate Valid()
      reads this, block
    {
      item + size <= block.Length && Covers(types, Elements())
    }

    ghost function Elements(): (s: seq<Value>)
      reads this`item, this`size, this`block, block
    {
      Window(block[..], item, size)
    }

    /** A new array of zeros with room for extra more elements. */
    constructor (n: nat, extra: nat)
      ensures Valid() && fresh(block) && block.Length == n + extra && item == 0 && size == n && refs == 1
      ensures block[..] == Zeros(n + extra) && Elements() == Zeros(n) && types == {0}
    {
      block := new Value[n + extra](_ => IntVal(0));
      item, size, refs := 0, n, 1;
      types := {0};
    }

    method DropRef()
      modifies this`refs
      ensures refs == old(refs) - 1
    {
      refs := refs - 1;
    }

    /** Stores a value and notes its type. */
    method SetIndexNoFree(index: nat, s: Value)
      requires index < size && item + size <= block.Length
      modifies this`types, block
      ensures types == old(types) + {Tag(s)}
      ensures Elements() == old(Elements())[index := s]
    {
      block[item + index] := s;
      types := types + {Tag(s)};
    }

    /** Copies n values from a block, which may be this one, as memmove does. */
    method Move(target: nat, from: array<Value>, source: nat, n: nat)
      requires source + n <= from.Length && target + n <= block.Length
      modifies block
      ensures block[..] == Moved(old(block[..]), target, old(from[..]), source, n)
    {
      forall k | target <= k < target + n {
        block[k] := from[k - target + source];
      }
    }

    /** Makes room for one element in the block, the shorter way if both ends are free. */
    method RoomInPlace(index: nat)
      requires Valid() && index <= size < block.Length
      modifies this`item, this`size, block
      ensures item + size <= block.Length && Opened(Elements(), old(Elements()), index)
    {
      if item != 0 && (2 * index < size || item + size == block.Length) {
        ShiftDown(index);
      } else {
        ShiftUp(index);
      }
    }

    method ShiftDown(index: nat)
      requires Valid() && index <= size && item > 0
      modifies this`item, this`size, block
      ensures item + size <= block.Length && Opened(Elements(), old(Elements()), index)
    {
      hide Window, Moved, Opened;
      ghost var blk := block[..];
      Move(item - 1, block, item, index);
      MovedWindows(blk, item - 1, blk, item, index, item - 1, index);
      MovedWindows(blk, item - 1, blk, item, index, item + index, size - index);
      SubWindow(blk, item, size, 0, index);
      SubWindow(blk, item, size, index, size - index);
      Whole(blk, item, size);
      OpenedWindow(block[..], item - 1, size, Window(blk, item, size), index);
      item := item - 1;
      size := size + 1;
    }

    method ShiftUp(index: nat)
      requires Valid() && index <= size && item + size < block.Length
      modifies this`size, block
      ensures item + size <= block.Length && Opened(Elements(), old(Elements()), index)
    {
      hide Window, Moved, Opened;
      ghost var blk := block[..];
      Move(item + index + 1, block, item + index, size - index);
      MovedWindows(blk, item + index + 1, blk, item + index, size - index, item + index + 1, size - index);
      MovedWindows(blk, item + index + 1, blk, item + index, size - index, item, index);
      SubWindow(blk, item, size, 0, index);
      SubWindow(blk, item, size, index, size - index);
      Whole(blk, item, size);
      OpenedWindow(block[..], item, size, Window(blk, item, size), index);
      size := size + 1;
    }

    /** Moves the window to another place of the block. */
    method MoveWindow(target: nat)
      requires Valid() && target + size <= block.Length
      modifies this`item, block
      ensures Valid() && item == target && Elements() == old(Elements())
    {
      hide Window, Moved;
      ghost var blk := block[..];
      Move(target, block, item, size);
      MovedWindows(blk, target, blk, item, size, target, size);
      item := target;
    }

    /** Writes the elements of w over those of the window from place at on. */
    method Overwrite(at: nat, w: Array)
      requires w.Valid() && w != this && w.block != block && at + w.size <= size && item + size <= block.Length
      modifies this`types, block
      ensures types == old(types) + w.types
      ensures Elements()[..at + w.size] == old(Elements())[..at] + w.Elements()
    {
      hide Window, Moved;
      ghost var blk, other := block[..], w.block[..];
      types := types + w.types;
      Move(item + at, w.block, w.item, w.size);
      MovedWindows(blk, item + at, other, w.item, w.size, item + at, w.size);
      MovedWindows(blk, item + at, other, w.item, w.size, item, at);
      JoinWindows(block[..], item, at, w.size);
      SubWindow(blk, item, size, 0, at);
      SubWindow(block[..], item, size, 0, at + w.size);
      Whole(blk, item, size);
      Whole(block[..], item, size);
    }

    /** Closes the gap left by one element. */
    method CloseGap(index: nat)
      requires Valid() && index < size
      modifies this`size, block
      ensures Valid() && Elements() == old(Elements())[..index] + old(Elements())[index + 1..]
    {
      hide Window, Moved, Covers;
      ghost var blk := block[..];
      Move(item + index, block, item + index + 1, size - index - 1);
      MovedWindows(blk, item + index, blk, item + index + 1, size - index - 1, item + index, size - index - 1);
      MovedWindows(blk, item + index, blk, item + index + 1, size - index - 1, item, index);
      JoinWindows(block[..], item, index, size - index - 1);
      SubWindow(blk, item, size, 0, index);
      SubWindow(blk, item, size, index + 1, size - index - 1);
      Whole(blk, item, size);
      CoversRemoved(types, Window(blk, item, size), index);
      size := size - 1;
    }

    /** Grows at the end with zeros. */
    method AddZeros(n: nat)
      requires Valid() && size <= n && item + n <= block.Length
      modifies this`size, this`types, block
      ensures Valid() && Elements() == old(Elements()) + Zeros(n - old(size))
    {
      hide Covers;
      ghost var was := Elements();
      while size < n
        invariant |was| <= size <= n && item + size <= block.Length
        invariant Elements() == was + Zeros(size - |was|)
        modifies this`size, block
      {
        ghost var now := Elements();
        block[item + size] := IntVal(0);
        size := size + 1;
        assert Elements() == now + [IntVal(0)];
      }
      CoversZeros(n - |was|);
      CoversBoth(types, was, {0}, Zeros(n - |was|));
      types := types + {0};
    }

    /** Adds the elements of w behind the window. */
    method Append(w: Array)
      requires Valid() && w.Valid() && w != this && w.block != block && item + size + w.size <= block.Length
      modifies this`size, this`types, block
      ensures Valid() && Elements() == old(Elements()) + w.Elements()
      ensures size == old(size) + w.size
    {
      hide Window, Moved, Covers;
      ghost var blk, other := block[..], w.block[..];
      CoversBoth(types, Elements(), w.types, w.Elements());
      types := types + w.types;
      Move(item + size, w.block, w.item, w.size);
      MovedWindows(blk, item + size, other, w.item, w.size, item + size, w.size);
      MovedWindows(blk, item + size, other, w.item, w.size, item, size);
      JoinWindows(block[..], item, size, w.size);
      size := size + w.size;
    }

    /** Adds the elements of w in front of the window. */
    method Prepend(w: Array)
      requires Valid() && w.Valid() && w != this && w.block != block && w.size <= item
      modifies this`item, this`size, this`types, block
      ensures Valid() && Elements() == w.Elements() + old(Elements())
      ensures size == old(size) + w.size && item == old(item) - w.size
    {
      hide Window, Moved, Covers;
      ghost var blk, other := block[..], w.block[..];
      CoversBoth(w.types, w.Elements(), types, Elements());
      types := types + w.types;
      Move(item - w.size, w.block, w.item, w.size);
      MovedWindows(blk, item - w.size, other, w.item, w.size, item - w.size, w.size);
      MovedWindows(blk, item - w.size, other, w.item, w.size, item, size);
      JoinWindows(block[..], item - w.size, w.size, size);
      assert types == w.types + old(types);
      item := item - w.size;
      size := size + w.size;
    }
  }

  lemma Whole(blk: seq<Value>, item: nat, size: nat)
    requires item + size <= |blk|
    ensures var w := Window(blk, item, size);
      |w| == size && forall a :: 0 <= a <= size ==> w[..a] == w[0..a] && w[a..] == w[a..size]
  {
  }

  lemma CoversZeros(n: nat)
    ensures Covers({0}, Zeros(n))
  {
  }

  // ---- Growing and shrinking ----

  /** Makes room for one element in a new block. */
  method RoomElsewhere(v: Array, index: nat) returns (r: Array)
    requires v.Valid() && index <= v.size
    modifies v`size, v`refs
    ensures fresh(r) && fresh(r.block) && r.item + r.size <= r.block.Length
    ensures r.types == v.types && v.refs == old(v.refs) - 1 && r.refs == 1
    ensures Opened(r.Elements(), old(v.Elements()), index)
    ensures old(v.refs) > 1 ==> v.size == old(v.size)
  {
    hide Window, Moved, Opened;
    ghost var other, size := v.block[..], v.size;
    r := new Array(v.size + 1, v.size + 1);
    r.types := v.types;
    ghost var blk0 := r.block[..];
    r.Move(0, v.block, v.item, index);
    ghost var blk1 := r.block[..];
    MovedWindows(blk0, 0, other, v.item, index, 0, index);
    r.Move(index + 1, v.block, v.item + index, v.size - index);
    MovedWindows(blk1, index + 1, other, v.item + index, v.size - index, 0, index);
    MovedWindows(blk1, index + 1, other, v.item + index, v.size - index, index + 1, v.size - index);
    SubWindow(other, v.item, size, 0, index);
    SubWindow(other, v.item, size, index, size - index);
    Whole(other, v.item, size);
    OpenedWindow(r.block[..], 0, size, Window(other, v.item, size), index);
    if v.refs == 1 {
      v.size := 0;
    }
    v.DropRef();
  }

  /** Inserts a value. */
  method Insert(v: Array, s: Value, index: nat) returns (r: Array)
    requires v.Valid() && index <= v.size
    modifies v, v.block
    ensures v.block == old(v.block)
    ensures r.Valid() && r.Elements() == old(v.Elements())[..index] + [s] + old(v.Elements())[index..]
    ensures r == v <==> old(v.refs) <= 1 && old(v.size) < v.block.Length
    ensures r != v ==> fresh(r) && fresh(r.block) && v.refs == old(v.refs) - 1 && r.refs == 1
    ensures r == v ==> v.refs == old(v.refs)
    ensures old(v.refs) > 1 ==> r != v && v.Valid() && v.Elements() == old(v.Elements())
  {
    hide Opened, Covers;
    ghost var was := v.Elements();
    if v.refs <= 1 && v.block.Length > v.size {
      v.RoomInPlace(index);
      r := v;
    } else {
      r := RoomElsewhere(v, index);
    }
    OpenedSize(r.Elements(), was, index);
    FillOpened(r.Elements(), was, index, s);
    r.SetIndexNoFree(index, s);
    CoversInserted(old(v.types), was, s, index);
  }

  lemma OpenedSize(now: seq<Value>, was: seq<Value>, index: nat)
    requires Opened(now, was, index)
    ensures |now| == |was| + 1 && index <= |was|
  {
  }

  /** A new array with n elements of v from place a on. */
  method CopyOf(v: Array, a: nat, n: nat, extra: nat) returns (r: Array)
    requires v.Valid() && a + n <= v.size
    ensures fresh(r) && fresh(r.block) && r.Valid() && r.refs == 1 && r.item == 0 && r.size == n
    ensures r.types == v.types && r.block.Length == n + extra && r.Elements() == v.Elements()[a..a + n]
  {
    hide Window, Moved, Covers;
    r := new Array(n, extra);
    ghost var blk := r.block[..];
    r.types := v.types;
    r.Move(0, v.block, v.item + a, n);
    MovedWindows(blk, 0, v.block[..], v.item + a, n, 0, n);
    SubWindow(v.block[..], v.item, v.size, a, n);
    Whole(v.block[..], v.item, v.size);
    CoversPart(v.types, v.Elements(), a, a + n);
  }

  /** Cuts off everything from size on; a block that has become much too large is replaced. */
  method Shrink(v: Array, size: nat) returns (r: Array)
    requires v.Valid() && size <= v.size
    modifies v`size, v`refs
    ensures r.Valid() && r.Elements() == old(v.Elements())[..size]
    ensures r == v <==> 0 < size && (size == old(v.size) || size * 4 >= v.block.Length + 4)
    ensures if r == v then v.refs == old(v.refs) else v.refs == old(v.refs) - 1 && r.refs == 1
    ensures r != v ==> fresh(r) && fresh(r.block)
  {
    hide Window, Covers;
    ghost var was := v.Elements();
    Whole(v.block[..], v.item, v.size);
    CoversPart(v.types, was, 0, size);
    if size == 0 {
      r := new Array(0, 0);
      Whole(r.block[..], 0, 0);
      v.DropRef();
      return;
    }
    if size == v.size {
      return v;
    }
    SubWindow(v.block[..], v.item, v.size, 0, size);
    if size * 4 < v.block.Length + 4 {
      r := CopyOf(v, 0, size, 0);
      v.size := 0;
      v.DropRef();
    } else {
      v.size := size;
      r := v;
    }
  }

  /** Changes the length; new elements are zero. */
  method Resize(a: Array, size: nat) returns (r: Array)
    requires a.Valid()
    modifies a`size, a`types, a`refs, a.block
    ensures r.Valid()
    ensures r.Elements() == if size <= old(a.size) then old(a.Elements())[..size]
                            else old(a.Elements()) + Zeros(size - old(a.size))
    ensures size > old(a.size) ==> (r == a <==> a.item + size <= a.block.Length)
    ensures 0 < size <= old(a.size) ==> (r == a <==> size == old(a.size) || size * 4 >= a.block.Length + 4)
    ensures if r == a then a.refs == old(a.refs) else a.refs == old(a.refs) - 1 && r.refs == 1
    ensures r != a ==> fresh(r) && fresh(r.block)
  {
    hide Window, Covers;
    Whole(a.block[..], a.item, a.size);
    if size == 0 && a.block.Length > 0 {
      r := Shrink(a, size);
    } else if a.size == size {
      r := a;
    } else if size < a.size {
      r := Shrink(a, size);
    } else if a.block.Length >= size && a.item + size <= a.block.Length {
      a.AddZeros(size);
      r := a;
    } else {
      r := GrowElsewhere(a, size);
    }
  }

  /** Moves the elements to a larger block that is zero behind them. */
  method GrowElsewhere(a: Array, size: nat) returns (r: Array)
    requires a.Valid() && size > a.size
    modifies a`size, a`refs
    ensures fresh(r) && fresh(r.block) && r.Valid()
    ensures r.Elements() == old(a.Elements()) + Zeros(size - old(a.size))
    ensures a.refs == old(a.refs) - 1 && r.refs == 1
  {
    hide Window, Moved, Covers;
    r := new Array(size, size + 1);
    ghost var blk, other := r.block[..], a.block[..];
    r.Move(0, a.block, a.item, a.size);
    MovedWindows(blk, 0, other, a.item, a.size, 0, a.size);
    MovedWindows(blk, 0, other, a.item, a.size, a.size, size - a.size);
    JoinWindows(r.block[..], 0, a.size, size - a.size);
    ZeroWindow(size + size + 1, a.size, size - a.size);
    CoversZeros(size - a.size);
    CoversBoth(a.types, a.Elements(), {0}, Zeros(size - a.size));
    r.types := a.types + {0};
    a.size := 0;
    a.DropRef();
  }

  lemma ZeroWindow(n: nat, item: nat, size: nat)
    requires item + size <= n
    ensures Window(Zeros(n), item, size) == Zeros(size)
  {
  }

  /** Removes one element. */
  method Remove(v: Array, index: nat) returns (r: Array)
    requires v.Valid() && index < v.size
    modifies v`size, v`refs, v.block
    ensures r.Valid() && r.Elements() == old(v.Elements())[..index] + old(v.Elements())[index + 1..]
    ensures r == v <==> old(v.size) > 1 && old(v.size) * 4 + 4 >= v.block.Length
    ensures if r == v then v.refs == old(v.refs) else v.refs == old(v.refs) - 1 && r.refs == 1
    ensures r != v ==> fresh(r) && fresh(r.block)
  {
    ghost var was := v.Elements();
    if v.size == 1 {
      v.size := 0;
      v.DropRef();
      r := new Array(0, 0);
    } else if v.size * 4 + 4 < v.block.Length {
      r := RemoveElsewhere(v, index);
    } else {
      v.CloseGap(index);
      r := v;
    }
  }

  method RemoveElsewhere(v: Array, index: nat) returns (r: Array)
    requires v.Valid() && index < v.size
    modifies v`size, v`refs
    ensures fresh(r) && fresh(r.block) && r.Valid()
    ensures r.Elements() == old(v.Elements())[..index] + old(v.Elements())[index + 1..]
    ensures v.refs == old(v.refs) - 1 && r.refs == 1
  {
    hide Window, Moved, Covers;
    ghost var other := v.block[..];
    var n := v.size - 1 - index;
    r := new Array(v.size - 1, 0);
    r.types := v.types;
    ghost var blk0 := r.block[..];
    r.Move(0, v.block, v.item, index);
    ghost var blk1 := r.block[..];
    MovedWindows(blk0, 0, other, v.item, index, 0, index);
    r.Move(index, v.block, v.item + index + 1, n);
    MovedWindows(blk1, index, other, v.item + index + 1, n, 0, index);
    MovedWindows(blk1, index, other, v.item + index + 1, n, index, n);
    JoinWindows(r.block[..], 0, index, n);
    SubWindow(other, v.item, v.size, 0, index);
    SubWindow(other, v.item, v.size, index + 1, n);
    Whole(other, v.item, v.size);
    CoversRemoved(v.types, v.Elements(), index);
    v.size := 0;
    v.DropRef();
  }

  /** The elements start..end; an unshared array is narrowed in place unless too much of its block
      would be wasted. */
  method Slice(v: Array, start: nat, end: nat) returns (r: Array)
    requires v.Valid() && start <= end <= v.size
    modifies v`item, v`size, v`refs
    ensures r.Valid() && r.Elements() == old(v.Elements())[start..end]
    ensures r == v <==> old(v.refs) == 1 && (end - start) * 4 > v.block.Length
    ensures if r == v then v.refs == 2 else v.refs == old(v.refs) && r.refs == 1
    ensures r != v ==> fresh(r) && fresh(r.block) && v.Valid() && v.Elements() == old(v.Elements())
  {
    hide Window, Covers;
    Whole(v.block[..], v.item, v.size);
    CoversPart(v.types, v.Elements(), start, end);
    SubWindow(v.block[..], v.item, v.size, start, end - start);
    if v.refs == 1 && (end - start) * 4 > v.block.Length {
      v.refs := v.refs + 1;
      v.item := v.item + start;
      v.size := end - start;
      return v;
    }
    r := CopyOf(v, start, end - start, 0);
  }
}
