/** One page of the block allocator: equal blocks, of which the free ones form a list whose tail
    may be implicit. */
module BlockPage {

  /** The word at the start of a free block.  ONE says: this block and every later one is free. */
  datatype Next = Null | One | At(i: nat)

  /** The numbers i .. n-1. */
  function Tail(i: nat, n: nat): (r: seq<nat>)
    ensures |r| == if i <= n then n - i else 0
    ensures forall k :: 0 <= k < |r| ==> r[k] == i + k
    decreases n - i
  {
    if i < n then [i] + Tail(i + 1, n) else []
  }

  /** Starting from l, the list denotes exactly the blocks `free`, in this order. */
  ghost predicate Denotes(next: seq<Next>, l: Next, free: seq<nat>)
    decreases |free|
  {
    match l
    case Null => free == []
    case One => false
    case At(i) =>
      && free != [] && free[0] == i < |next|
      && if next[i] == One then free == Tail(i, |next|) else Denotes(next, next[i], free[1..])
  }

  /** The block that carries ONE is not the last of the page. */
  ghost predicate OneNotLast(next: seq<Next>, l: Next, free: seq<nat>)
    requires Denotes(next, l, free)
    decreases |free|
  {
    match l
    case Null => true
    case At(i) => if next[i] == One then i + 1 < |next| else OneNotLast(next, next[i], free[1..])
  }

  ghost predicate Distinct(s: seq<nat>) {
    forall i, j :: 0 <= i < j < |s| ==> s[i] != s[j]
  }

  ghost predicate Ascending(s: seq<nat>) {
    forall i, j :: 0 <= i < j < |s| ==> s[i] < s[j]
  }

  /** A list denotes one sequence of blocks only. */
  lemma {:induction false} DenotesOne(next: seq<Next>, l: Next, f: seq<nat>, g: seq<nat>)
    requires Denotes(next, l, f) && Denotes(next, l, g)
    ensures f == g
    decreases |f|
  {
    if l.At? && next[l.i] != One {
      DenotesOne(next, next[l.i], f[1..], g[1..]);
      assert f == [f[0]] + f[1..] && g == [g[0]] + g[1..];
    }
  }

  lemma {:induction false} DenotesInRange(next: seq<Next>, l: Next, free: seq<nat>)
    requires Denotes(next, l, free)
    ensures forall k :: 0 <= k < |free| ==> free[k] < |next|
    decreases |free|
  {
    if l.At? && next[l.i] != One {
      DenotesInRange(next, next[l.i], free[1..]);
    }
  }

  /** Words of blocks outside the list do not matter. */
  lemma {:induction false} DenotesFrame(next: seq<Next>, other: seq<Next>, l: Next, free: seq<nat>)
    requires Denotes(next, l, free) && |other| == |next|
    requires forall i :: 0 <= i < |next| && i in free ==> other[i] == next[i]
    ensures Denotes(other, l, free) && (OneNotLast(next, l, free) ==> OneNotLast(other, l, free))
    decreases |free|
  {
    if l.At? && next[l.i] != One {
      assert forall i :: i in free[1..] ==> i in free;
      DenotesFrame(next, other, next[l.i], free[1..]);
    }
  }

  // ---- One allocation after the other ----

  /** What an allocation leaves of the words and the list head; Outside when it would write behind the page. */
  datatype Taken = Outside | Inside(next: seq<Next>, first: Next)

  /** Take the first block. When it carries ONE, the word of its successor is written. */
  function TakeOnce(next: seq<Next>, first: Next): Taken
    requires first.At? && first.i < |next|
  {
    if next[first.i] == One then
      var b := first.i + 1;
      if b < |next| then Inside(next[b := if b == |next| - 1 then Null else One], At(b)) else Outside
    else Inside(next, next[first.i])
  }

  /** One of the first n allocations writes behind the page. */
  predicate Escapes(next: seq<Next>, first: Next, n: nat)
    decreases n
  {
    && n > 0 && first.At? && first.i < |next|
    && match TakeOnce(next, first)
       case Outside => true
       case Inside(next', first') => Escapes(next', first', n - 1)
  }

  /** An allocation writes behind the page exactly when ONE is on the last block, and it is the one that takes
      the last free block. */
  lemma {:induction false} EscapesExactly(next: seq<Next>, first: Next, free: seq<nat>, n: nat)
    requires Denotes(next, first, free)
    ensures Escapes(next, first, n) <==> n >= |free| && !OneNotLast(next, first, free)
    decreases |free|
  {
    if first.At? && n > 0 {
      var i := first.i;
      if next[i] != One {
        EscapesExactly(next, next[i], free[1..], n - 1);
      } else if i + 1 < |next| {
        var next' := next[i + 1 := if i + 1 == |next| - 1 then Null else One];
        OneMoved(next, i);
        EscapesExactly(next', At(i + 1), free[1..], n - 1);
      }
    }
  }

  /** The implicit tail, after its first block is taken. */
  lemma OneMoved(next: seq<Next>, i: nat)
    requires i + 1 < |next| && next[i] == One
    ensures var next' := next[i + 1 := if i + 1 == |next| - 1 then Null else One];
      && Tail(i, |next|)[1..] == Tail(i + 1, |next|)
      && Denotes(next', At(i + 1), Tail(i + 1, |next|)) && OneNotLast(next', At(i + 1), Tail(i + 1, |next|))
  {
    TailStep(i, |next|);
    TailStep(i + 1, |next|);
  }

  /** A cleared page denotes all of its blocks. With two blocks or more no allocation writes behind it; with a
      single block the first one does. */
  lemma ClearedPage(next: seq<Next>, n: nat)
    requires next != [] && next[0] == One
    ensures Denotes(next, At(0), Tail(0, |next|))
    ensures Escapes(next, At(0), n) <==> |next| == 1 && n > 0
  {
    EscapesExactly(next, At(0), Tail(0, |next|), n);
  }

  class Page {
    const blocks: nat
    const base: nat            // the address of the first block
    const next: array<Next>
    var first: Next
    var used: nat
    var sorted: bool
    ghost var free: seq<nat>   // the free blocks, in the order the list gives them

    /** The free list denotes `free`; every other block is counted in `used`. */
    ghost predicate Listed()
      reads this, next
    {
      && next.Length == blocks
      && Denotes(next[..], first, free)
      && Distinct(free)
      && used + |free| == blocks
      && (sorted ==> Ascending(free))
    }

    ghost predicate Valid()
      reads this, next
    {
      Listed() && OneNotLast(next[..], first, free)
    }

    constructor (blocks: nat, base: nat)
      requires blocks >= 1
      ensures Listed() && (Valid() <==> blocks >= 2) && fresh(next) && this.blocks == blocks && this.base == base
      ensures free == Tail(0, blocks) && used == 0
    {
      this.blocks, this.base := blocks, base;
      next := new Next[blocks];
      new;
      Clear();
    }

    /** All blocks become free, in order.  A single block carries ONE as the last one. */
    method Clear()
      requires next.Length == blocks >= 1
      modifies this, next
      ensures Listed() && (Valid() <==> blocks >= 2) && free == Tail(0, blocks) && used == 0 && sorted
    {
      used := 0;
      sorted := true;
      next[0] := One;
      first := At(0);
      free := Tail(0, blocks);
    }

    /** Hand out the first free block. */
    method Take() returns (ptr: nat)
      requires Valid() && first != Null
      modifies this`first, this`used, this`free, next
      ensures Valid() && ptr == old(free)[0] && free == old(free)[1..] && used == old(used) + 1
      ensures old(free) != [] && Inside(next[..], first) == TakeOnce(old(next[..]), old(first))
    {
      DenotesInRange(next[..], first, free);
      ptr := first.i;
      used := used + 1;
      if next[ptr] == One {
        var b := ptr + 1;
        TailStep(ptr, blocks);
        next[b] := if b == blocks - 1 then Null else One;
        first := At(b);
        TailStep(b, blocks);
      } else {
        first := next[ptr];
      }
      free := free[1..];
    }

    /** Take a block back, to the front of the list. */
    method Give(b: nat)
      requires Listed() && b < blocks && b !in free
      modifies this`first, this`used, this`free, this`sorted, next
      ensures Listed() && (old(Valid()) ==> Valid())
      ensures free == [b] + old(free) && old(used) > 0 && used == old(used) - 1 && !sorted
    {
      ghost var was := next[..];
      DenotesInRange(was, first, free);
      next[b] := first;
      DenotesFrame(was, next[..], first, free);
      first := At(b);
      sorted := false;
      assert ([b] + free)[1..] == free;
      free := [b] + free;
      FewerThan(free, blocks);
      used := used - 1;
    }
  }

  lemma TailStep(i: nat, n: nat)
    requires i < n
    ensures Tail(i, n)[0] == i && Tail(i, n)[1..] == Tail(i + 1, n)
  {
  }

  function Below(n: nat): (r: set<nat>)
    ensures forall i :: i in r <==> 0 <= i < n
    ensures |r| == n
  {
    if n == 0 then {} else Below(n - 1) + {n - 1}
  }

  function Elements(s: seq<nat>): (r: set<nat>)
    ensures forall x :: x in r <==> x in s
    ensures Distinct(s) ==> |r| == |s|
  {
    if s == [] then {}
    else
      var n := |s| - 1;
      assert Distinct(s) ==> s[n] !in s[..n];
      Elements(s[..n]) + {s[n]}
  }

  /** Distinct numbers below n are at most n. */
  lemma FewerThan(s: seq<nat>, n: nat)
    requires Distinct(s) && forall k :: 0 <= k < |s| ==> s[k] < n
    ensures |s| <= n
  {
    SubsetSize(Elements(s), Below(n));
  }

  lemma {:induction false} SubsetSize(a: set<nat>, b: set<nat>)
    requires a <= b
    ensures |a| <= |b|
    decreases a
  {
    if a != {} {
      var x :| x in a;
      SubsetSize(a - {x}, b - {x});
    }
  }
}
