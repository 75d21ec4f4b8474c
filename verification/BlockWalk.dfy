/** Sorting the free list of a page, and walking over the blocks that are handed out. */
module BlockWalk {
  import opened BlockPage

  /** The marked indices in [lo, hi), in ascending order. */
  function Marked(v: seq<bool>, lo: nat, hi: nat): (r: seq<nat>)
    requires lo <= hi <= |v|
    ensures forall k :: 0 <= k < |r| ==> lo <= r[k] < hi
    ensures forall i :: i in r <==> lo <= i < hi && v[i]
    ensures Ascending(r)
    decreases hi
  {
    if lo == hi then []
    else if v[hi - 1] then Marked(v, lo, hi - 1) + [hi - 1]
    else Marked(v, lo, hi - 1)
  }

  lemma {:induction false} MarkedNone(v: seq<bool>, lo: nat, hi: nat)
    requires lo <= hi <= |v| && forall k :: lo <= k < hi ==> !v[k]
    ensures Marked(v, lo, hi) == []
    decreases hi
  {
    if lo < hi {
      MarkedNone(v, lo, hi - 1);
    }
  }

  lemma {:induction false} MarkedSame(v: seq<bool>, w: seq<bool>, lo: nat, hi: nat)
    requires lo <= hi <= |v| == |w| && forall k :: lo <= k < hi ==> v[k] == w[k]
    ensures Marked(v, lo, hi) == Marked(w, lo, hi)
    decreases hi
  {
    if lo < hi {
      MarkedSame(v, w, lo, hi - 1);
    }
  }

  lemma {:induction false} MarkedSplit(v: seq<bool>, lo: nat, i: nat, hi: nat)
    requires lo <= i <= hi <= |v|
    ensures Marked(v, lo, hi) == Marked(v, lo, i) + Marked(v, i, hi)
    decreases hi
  {
    if i < hi {
      MarkedSplit(v, lo, i, hi - 1);
    }
  }

  lemma MarkedFront(v: seq<bool>, lo: nat, i: nat, hi: nat)
    requires lo <= i < hi <= |v| && v[i] && forall k :: lo <= k < i ==> !v[k]
    ensures Marked(v, lo, hi) == [i] + Marked(v, i + 1, hi)
  {
    hide Marked;
    MarkedSplit(v, lo, i, hi);
    MarkedSplit(v, i, i + 1, hi);
    MarkedNone(v, lo, i);
    MarkedOne(v, i);
  }

  lemma MarkedOne(v: seq<bool>, i: nat)
    requires i < |v| && v[i]
    ensures Marked(v, i, i + 1) == [i]
  {
    assert Marked(v, i, i) == [];
  }

  /** Marking one more index lengthens the list by one. */
  lemma MarkedGrows(v: seq<bool>, i: nat)
    requires i < |v| && !v[i]
    ensures |Marked(v[i := true], 0, |v|)| == |Marked(v, 0, |v|)| + 1
  {
    var w := v[i := true];
    MarkedSplit(v, 0, i, |v|);
    MarkedSplit(w, 0, i, |v|);
    MarkedSplit(v, i, i + 1, |v|);
    MarkedSplit(w, i, i + 1, |v|);
    MarkedSame(v, w, 0, i);
    MarkedSame(v, w, i + 1, |v|);
  }

  /** The free list a sort leaves: marked blocks below len, and all blocks from len on. */
  function SortedFree(v: seq<bool>, len: nat): seq<nat>
    requires len <= |v|
  {
    Marked(v, 0, len) + Tail(len, |v|)
  }

  // ---- Building the list ----

  /** first and next link the elements of list, in order; the last link is still open. */
  ghost predicate Linked(next: seq<Next>, first: Next, list: seq<nat>) {
    && (forall k :: 0 <= k < |list| ==> list[k] < |next|)
    && (list != [] ==> first == At(list[0]))
    && (forall k :: 0 <= k < |list| - 1 ==> next[list[k]] == At(list[k + 1]))
  }

  lemma {:induction false} LinkedDenotes(next: seq<Next>, first: Next, list: seq<nat>, last: Next, rest: seq<nat>)
    requires Linked(next, first, list) && Denotes(next, last, rest)
    requires last == if list == [] then first else next[list[|list| - 1]]
    ensures Denotes(next, first, list + rest)
    ensures OneNotLast(next, first, list + rest) <==> OneNotLast(next, last, rest)
    decreases |list|
  {
    if list == [] {
      assert list + rest == rest;
    } else {
      var i := list[0];
      assert if |list| == 1 then next[i] == last else next[i] == At(list[1]);
      LinkedDenotes(next, next[i], list[1..], last, rest);
      assert (list + rest)[1..] == list[1..] + rest;
    }
  }

  const BV_LENGTH: nat := 64

  /** The first set bit of a word of the vector, from index lo on; -1 when there is none. Words reach beyond the
      vector, where no bit is set. */
  method FirstSet(v: array<bool>, lo: nat, hi: nat) returns (r: int)
    requires lo <= hi
    ensures if r == -1 then forall k :: lo <= k < hi && k < v.Length ==> !v[k]
            else lo <= r < hi && r < v.Length && v[r] && forall k :: lo <= k < r ==> !v[k]
  {
    var bit := lo;
    while bit < hi && bit < v.Length
      invariant lo <= bit <= hi
      invariant forall k :: lo <= k < bit && k < v.Length ==> !v[k]
    {
      if v[bit] {
        return bit;
      }
      bit := bit + 1;
    }
    return -1;
  }

  /** First marked index from n on, below length, word by word; bits are set from length on, too. (The C code's
      (size_t)-1 is -1 here.) */
  method Ctz(v: array<bool>, length: nat, n: nat) returns (r: int)
    requires length <= v.Length
    ensures NextMarked(v[..], n, length, r)
  {
    if n < length {
      var c := n / BV_LENGTH;
      var first := FirstSet(v, n, (c + 1) * BV_LENGTH);
      var bit := c * BV_LENGTH;
      while true
        invariant bit <= n || forall k :: n <= k < bit && k < v.Length ==> !v[k]
        invariant bit % BV_LENGTH == 0 && bit < length
        invariant if first == -1 then forall k :: n <= k < bit + BV_LENGTH && k < v.Length ==> !v[k]
                  else n <= first < v.Length && v[first] && forall k :: n <= k < first ==> !v[k]
        decreases length - bit
      {
        if first != -1 {
          if first >= length {
            break;
          }
          return first;
        }
        bit := bit + BV_LENGTH;
        if bit >= length {
          break;
        }
        first := FirstSet(v, bit, bit + BV_LENGTH);
      }
    }
    return -1;
  }

  lemma DenotesStep(next: seq<Next>, n: nat, free: seq<nat>)
    requires Denotes(next, At(n), free)
    ensures free != [] && free[0] == n < |next|
    ensures next[n] == One ==> free == Tail(n, |next|)
    ensures next[n] != One ==> Denotes(next, next[n], free[1..])
  {
  }

  /** The marks v stand for the first m of the listed blocks. */
  ghost predicate MarksPrefix(v: seq<bool>, free: seq<nat>, m: nat) {
    m <= |free| && forall i :: 0 <= i < |v| ==> (v[i] <==> i in free[..m])
  }

  lemma MarksStep(v: seq<bool>, free: seq<nat>, m: nat)
    requires MarksPrefix(v, free, m) && m < |free| && free[m] < |v| && Distinct(free)
    ensures !v[free[m]] && MarksPrefix(v[free[m] := true], free, m + 1)
  {
    assert free[..m + 1] == free[..m] + [free[m]];
  }

  /** What the marks must say once the whole list has been followed. */
  ghost predicate MarksAll(v: seq<bool>, length: nat, free: seq<nat>) {
    && 0 < length <= |v|
    && (forall i :: 0 <= i < |v| ==> (i in free <==> v[i] || length <= i))
    && (forall i :: length <= i < |v| ==> !v[i])
    && (length < |v| ==> v[length - 1])
  }

  lemma DistinctParts(free: seq<nat>, m: nat, i: nat)
    requires Distinct(free) && m <= |free| && i in free[m..]
    ensures i !in free[..m] && i in free
  {
  }

  /** The block carrying ONE was the last to be marked; the later ones are implied. */
  lemma MarksTail(v: seq<bool>, free: seq<nat>, m: nat, n: nat)
    requires 0 < m && MarksPrefix(v, free, m) && Distinct(free) && n < |v|
    requires free[m - 1..] == Tail(n, |v|)
    ensures MarksAll(v, n + 1, free)
    ensures Marked(v, 0, n + 1) == Marked(v, 0, |v|)
  {
    hide Marked;
    hide Tail;
    hide Distinct;
    assert free[m - 1..][1..] == free[m..];
    TailStep(n, |v|);
    TailElements(n + 1, |v|);
    forall i | n + 1 <= i < |v| ensures !v[i] && i in free {
      assert i in Tail(n + 1, |v|);
      DistinctParts(free, m, i);
    }
    assert free[m - 1] == n && free[m - 1] in free[..m];
    assert forall i :: 0 <= i < |v| && i in free ==> i in free[..m] || i in free[m..];
    MarkedSplit(v, 0, n + 1, |v|);
    MarkedNone(v, n + 1, |v|);
  }

  /** Record the listed blocks; `length` cuts off what an implicit tail covers. */
  method MarkList(p: Page) returns (v: array<bool>, length: nat, j: nat)
    requires p.Listed() && p.free != []
    ensures fresh(v) && v.Length == p.blocks
    ensures MarksAll(v[..], length, p.free) && j == |Marked(v[..], 0, length)|
  {
    hide Marked;
    hide Denotes;
    hide MarksPrefix;
    v := new bool[p.blocks](_ => false);
    length := p.blocks;
    j := 0;
    DenotesInRange(p.next[..], p.first, p.free);
    ghost var m := NothingMarked(v[..], p.free);
    DenotesNotOne(p.next[..], p.first, p.free);
    var b := p.first;
    while b != Null
      invariant 0 <= m <= |p.free| && Denotes(p.next[..], b, p.free[m..])
      invariant MarksPrefix(v[..], p.free, m) && j == |Marked(v[..], 0, p.blocks)|
      invariant b != One
      decreases |p.free| - m
      modifies v
    {
      var n := b.i;
      DenotesStep(p.next[..], n, p.free[m..]);
      MarksStep(v[..], p.free, m);
      MarkedGrows(v[..], n);
      ghost var was := v[..];
      v[n] := true;
      assert v[..] == was[n := true];
      j := j + 1;
      m := m + 1;
      assert p.free[m - 1..][1..] == p.free[m..];
      if p.next[n] == One {
        length := n + 1;
        MarksTail(v[..], p.free, m, n);
        return;
      }
      b := p.next[n];
      DenotesNotOne(p.next[..], b, p.free[m..]);
    }
    AllMarked(p.next[..], v[..], p.free, m);
  }

  lemma NothingMarked(v: seq<bool>, free: seq<nat>) returns (m: nat)
    requires forall i :: 0 <= i < |v| ==> !v[i]
    ensures m == 0 && MarksPrefix(v, free, 0) && |Marked(v, 0, |v|)| == 0 && free[0..] == free
  {
    m := 0;
    MarkedNone(v, 0, |v|);
  }

  lemma DenotesNotOne(next: seq<Next>, l: Next, free: seq<nat>)
    requires Denotes(next, l, free)
    ensures l != One
  {
  }

  lemma AllMarked(next: seq<Next>, v: seq<bool>, free: seq<nat>, m: nat)
    requires MarksPrefix(v, free, m) && Denotes(next, Null, free[m..]) && free != []
    requires forall k :: 0 <= k < |free| ==> free[k] < |v|
    ensures MarksAll(v, |v|, free)
  {
    assert free[..m] == free;
    assert free[0] < |v|;
  }

  lemma TailElements(i: nat, n: nat)
    requires i <= n
    ensures forall k :: k in Tail(i, n) <==> i <= k < n
  {
    forall k | i <= k < n ensures k in Tail(i, n) {
      assert Tail(i, n)[k - i] == k;
    }
  }

  /** Below len the marks say what is free; from len on everything is; and len is as small as it
      gets, short of 0. */
  ghost predicate Trimmed(v: seq<bool>, len: nat, free: seq<nat>) {
    && 0 < len <= |v|
    && (forall i :: 0 <= i < |v| ==> (i in free <==> i >= len || v[i]))
    && (len == 1 || !v[len - 1])
  }

  /** Consecutive free blocks at the end need not be listed one by one. */
  method TrimTail(v: array<bool>, length: nat, j: nat, ghost free: seq<nat>) returns (len: nat, rest: nat)
    requires MarksAll(v[..], length, free) && j == |Marked(v[..], 0, length)|
    ensures len <= v.Length && Trimmed(v[..], len, free) && rest == |Marked(v[..], 0, len)|
  {
    hide Marked;
    hide MarksAll;
    InLength(v[..], length, free);
    var i := length - 1;
    rest := j;
    while i > 0 && v[i]
      invariant 0 <= i < length && rest == |Marked(v[..], 0, i + 1)|
      invariant forall k :: i < k < length ==> v[..][k]
    {
      MarkedLast(v[..], i);
      i := i - 1;
      rest := rest - 1;
    }
    len := i + 1;
    TrimDone(v[..], length, len, free);
  }

  lemma InLength(v: seq<bool>, length: nat, free: seq<nat>)
    requires MarksAll(v, length, free)
    ensures 0 < length <= |v|
  {
  }

  lemma MarkedLast(v: seq<bool>, i: nat)
    requires i < |v| && v[i]
    ensures |Marked(v, 0, i + 1)| == |Marked(v, 0, i)| + 1
  {
  }

  lemma TrimDone(v: seq<bool>, length: nat, len: nat, free: seq<nat>)
    requires MarksAll(v, length, free) && 0 < len <= length && (len == 1 || !v[len - 1])
    requires forall k :: len <= k < length ==> v[k]
    ensures Trimmed(v, len, free)
  {
  }

  /** Store a link: in the page header, or in the block that ended the list so far. */
  method SetLink(p: Page, b: Next, x: Next, ghost list: seq<nat>)
    requires p.next.Length == p.blocks && Linked(p.next[..], p.first, list)
    requires b == if list == [] then Null else At(list[|list| - 1])
    requires Ascending(list)
    modifies p`first, p.next
    ensures Linked(p.next[..], p.first, list) || list == []
    ensures x == if list == [] then p.first else p.next[list[|list| - 1]]
    ensures x.At? && x.i < p.blocks && (list == [] || list[|list| - 1] < x.i) ==>
              Linked(p.next[..], p.first, list + [x.i])
  {
    if b == Null {
      p.first := x;
    } else {
      p.next[b.i] := x;
    }
  }

  /** Rechain the marked blocks below len in ascending order; b is the last one. */
  method Rechain(p: Page, v: array<bool>, len: nat) returns (b: Next, ghost list: seq<nat>)
    requires p.next.Length == p.blocks == v.Length && len <= v.Length
    modifies p`first, p.next
    ensures list == Marked(v[..], 0, len) && Linked(p.next[..], p.first, list)
    ensures b == if list == [] then Null else At(list[|list| - 1])
  {
    hide Marked;
    hide Linked;
    hide Ascending;
    hide Chained;
    ghost var marks := v[..];
    b, list := Null, [];
    var j: nat := 0;
    ChainedStart(marks, p.next[..], p.first, len);
    var i := Ctz(v, len, j);
    while i != -1
      invariant v[..] == marks && j <= len && Chained(marks, p.next[..], p.first, list, b, j, len)
      invariant NextMarked(marks, j, len, i)
      decreases len - j, i
    {
      ChainedNext(marks, p.next[..], p.first, list, b, j, len, i);
      SetLink(p, b, At(i), list);
      b := At(i);
      list := list + [i];
      j := i + 1;
      ChainedStep(marks, p.next[..], p.first, list, b, j, len);
      i := Ctz(v, len, j);
    }
    ChainedEnd(marks, p.next[..], p.first, list, b, j, len);
  }

  /** i is the first marked index from n on, below length; -1 when there is none. */
  ghost predicate NextMarked(v: seq<bool>, n: nat, length: nat, i: int)
    requires length <= |v|
  {
    if i == -1 then forall k :: n <= k < length ==> !v[k]
    else n <= i < length && v[i] && forall k :: n <= k < i ==> !v[k]
  }

  /** The marked blocks below j have been chained; b is the last of them. */
  ghost predicate Chained(v: seq<bool>, next: seq<Next>, first: Next, list: seq<nat>, b: Next, j: nat, len: nat)
    requires j <= len <= |v|
  {
    && list + Marked(v, j, len) == Marked(v, 0, len)
    && Ascending(list + [j])
    && Linked(next, first, list)
    && IsLast(list, b)
  }

  lemma ChainedStart(v: seq<bool>, next: seq<Next>, first: Next, len: nat)
    requires len <= |v|
    ensures Chained(v, next, first, [], Null, 0, len)
  {
    NoLinks(next, first);
    AscendingOne(0);
  }

  /** What appending the next marked block i needs, and what it will give. */
  lemma ChainedNext(v: seq<bool>, next: seq<Next>, first: Next, list: seq<nat>, b: Next, j: nat, len: nat, i: nat)
    requires j <= i < len <= |v| && Chained(v, next, first, list, b, j, len)
    requires v[i] && forall k :: j <= k < i ==> !v[k]
    ensures Linked(next, first, list) && Ascending(list) && IsLast(list, b) && (list != [] ==> list[|list| - 1] < i)
    ensures list + [i] + Marked(v, i + 1, len) == Marked(v, 0, len) && Ascending(list + [i] + [i + 1])
  {
    hide Marked;
    hide Linked;
    MarkedFront(v, j, i, len);
    assert list + ([i] + Marked(v, i + 1, len)) == list + [i] + Marked(v, i + 1, len);
    AscendingNext(list, j, i);
  }

  /** b is the block at the end of the list. */
  ghost predicate IsLast(list: seq<nat>, b: Next) {
    b == if list == [] then Null else At(list[|list| - 1])
  }

  lemma ChainedStep(v: seq<bool>, next: seq<Next>, first: Next, list: seq<nat>, b: Next, j: nat, len: nat)
    requires j <= len <= |v| && list != [] && Linked(next, first, list) && b == At(list[|list| - 1])
    requires list + Marked(v, j, len) == Marked(v, 0, len) && Ascending(list + [j])
    ensures Chained(v, next, first, list, b, j, len)
  {
  }

  lemma ChainedEnd(v: seq<bool>, next: seq<Next>, first: Next, list: seq<nat>, b: Next, j: nat, len: nat)
    requires j <= len <= |v| && Chained(v, next, first, list, b, j, len)
    requires forall k :: j <= k < len ==> !v[k]
    ensures list == Marked(v, 0, len) && Linked(next, first, list)
    ensures b == if list == [] then Null else At(list[|list| - 1])
  {
    MarkedNone(v, j, len);
    assert list + [] == list;
  }

  lemma AscendingOne(j: nat)
    ensures Ascending([] + [j])
  {
  }

  lemma NoLinks(next: seq<Next>, first: Next)
    ensures Linked(next, first, [])
  {
  }

  lemma AscendingNext(list: seq<nat>, j: nat, i: nat)
    requires Ascending(list + [j]) && j <= i
    ensures Ascending(list) && (list != [] ==> list[|list| - 1] < i) && Ascending(list + [i] + [i + 1])
  {
    var s := list + [j];
    assert forall k :: 0 <= k < |list| ==> list[k] == s[k] && s[k] < s[|list|];
  }

  /** The only free block at the end stands alone there. */
  ghost predicate OnlyLastFree(blocks: nat, free: seq<nat>) {
    blocks >= 2 && blocks - 1 in free && (blocks == 2 || blocks - 2 !in free)
  }

  /** The free blocks in ascending order. */
  ghost predicate SortedVersion(now: seq<nat>, was: seq<nat>) {
    Ascending(now) && |now| == |was| && Elements(now) == Elements(was)
  }

  lemma SortedMembers(v: seq<bool>, len: nat, free: seq<nat>)
    requires Trimmed(v, len, free) && forall k :: 0 <= k < |free| ==> free[k] < |v|
    ensures Elements(SortedFree(v, len)) == Elements(free)
  {
    hide Marked;
    hide Tail;
    TailElements(len, |v|);
    var now := SortedFree(v, len);
    forall i ensures i in now <==> i in free {
      assert i in now <==> i in Marked(v, 0, len) || i in Tail(len, |v|);
    }
  }

  lemma SortedAscending(v: seq<bool>, len: nat)
    requires len <= |v|
    ensures Ascending(SortedFree(v, len))
  {
    hide Marked;
    hide Tail;
  }

  lemma WhereOneGoes(v: seq<bool>, len: nat, free: seq<nat>)
    requires Trimmed(v, len, free)
    ensures len == |v| - 1 <==> OnlyLastFree(|v|, free)
  {
  }

  lemma SortedFreeIs(v: seq<bool>, len: nat, free: seq<nat>)
    requires Trimmed(v, len, free) && Distinct(free) && forall k :: 0 <= k < |free| ==> free[k] < |v|
    ensures SortedVersion(SortedFree(v, len), free) && Distinct(SortedFree(v, len))
    ensures Ascending(SortedFree(v, len))
  {
    SortedMembers(v, len, free);
    SortedAscending(v, len);
    assert Distinct(SortedFree(v, len));
  }

  lemma SortedDenotes(next: seq<Next>, first: Next, list: seq<nat>, len: nat)
    requires Linked(next, first, list) || list == []
    requires len <= |next|
    requires len < |next| ==> next[len] == One
    requires (if list == [] then first else next[list[|list| - 1]]) == if len < |next| then At(len) else Null
    ensures Denotes(next, first, list + Tail(len, |next|))
    ensures OneNotLast(next, first, list + Tail(len, |next|)) <==> len != |next| - 1
  {
    var last := if len < |next| then At(len) else Null;
    assert Denotes(next, last, Tail(len, |next|));
    LinkedDenotes(next, first, list, last, Tail(len, |next|));
  }

  /** Sort the free list of a page.  The same blocks stay free, now in ascending order.  The block
      carrying ONE ends up last in the page exactly when the last block is free and, unless the
      page has just two blocks, the one before it is not. */
  method SortFreeList(p: Page)
    requires p.Listed()
    modifies p`first, p`free, p.next
    ensures p.Listed() && SortedVersion(p.free, old(p.free))
    ensures p.free != [] ==> (OneNotLast(p.next[..], p.first, p.free) <==> !OnlyLastFree(p.blocks, old(p.free)))
  {
    hide Marked;
    hide Linked;
    hide Trimmed;
    hide Denotes;
    hide OneNotLast;
    hide OnlyLastFree;
    hide Ascending;
    hide Distinct;
    if p.first == Null {
      NullIsEmpty(p);
      return;
    }
    SomeFree(p);
    ghost var was := p.free;
    DenotesInRange(p.next[..], p.first, was);
    var v, length, j := MarkList(p);
    var len, rest := TrimTail(v, length, j, was);
    SortedFreeIs(v[..], len, was);
    WhereOneGoes(v[..], len, was);
    Store(p, v, len, rest);
    p.free := SortedFree(v[..], len);
  }

  lemma NullIsEmpty(p: Page)
    requires p.Listed() && p.first == Null
    ensures p.free == [] && SortedVersion(p.free, p.free)
  {
  }

  lemma SomeFree(p: Page)
    requires p.Listed() && p.first != Null
    ensures p.free != []
  {
  }

  /** Write the sorted list into the page. */
  method Store(p: Page, v: array<bool>, len: nat, rest: nat)
    requires p.next.Length == p.blocks == v.Length && len <= v.Length && rest == |Marked(v[..], 0, len)|
    modifies p`first, p.next
    ensures Denotes(p.next[..], p.first, SortedFree(v[..], len))
    ensures OneNotLast(p.next[..], p.first, SortedFree(v[..], len)) <==> len != p.blocks - 1
  {
    hide Marked;
    hide Denotes;
    hide OneNotLast;
    var b := Null;
    ghost var list: seq<nat> := [];
    if rest != 0 {
      b, list := Rechain(p, v, len);
    } else {
      NoLinks(p.next[..], p.first);
    }
    if len < p.blocks {
      SetLink(p, b, At(len), list);
      ghost var linked := p.next[..];
      p.next[len] := One;
      assert p.next[..] == linked[len := One];
    } else {
      SetLink(p, b, Null, list);
    }
    SortedDenotes(p.next[..], p.first, list, len);
  }

  lemma EmptyNotLast(blocks: nat, free: seq<nat>)
    ensures free == [] ==> !OnlyLastFree(blocks, free)
  {
  }

  lemma SortedEmpty(p: Page, was: seq<nat>)
    requires p.Listed() && SortedVersion(p.free, was)
    requires p.free != [] ==> (OneNotLast(p.next[..], p.first, p.free) <==> !OnlyLastFree(p.blocks, was))
    ensures p.Valid() <==> !OnlyLastFree(p.blocks, was)
  {
  }

  /** Sort a page's list unless it is flagged as sorted. */
  method EnsureSorted(p: Page)
    requires p.Listed()
    modifies p`first, p`free, p`sorted, p.next
    ensures p.Listed() && p.sorted && Ascending(p.free) && SortedVersion(p.free, old(p.free))
    ensures p.Valid() <==> if old(p.sorted) then old(p.Valid()) else !OnlyLastFree(p.blocks, old(p.free))
  {
    if !p.sorted {
      ghost var was := p.free;
      EmptyNotLast(p.blocks, was);
      SortFreeList(p);
      p.sorted := true;
      SortedEmpty(p, was);
    }
  }

  // ---- Walking ----

  /** A stretch of neighbouring blocks, handed to the callback at once. */
  datatype Run = Run(start: nat, end: nat)

  function RunBlocks(r: Run): (s: seq<nat>) {
    Tail(r.start, r.end)
  }

  /** The blocks a callback sees over several calls, in the order it sees them. */
  function Seen(runs: seq<Run>): (s: seq<nat>) {
    if runs == [] then [] else Seen(runs[..|runs| - 1]) + RunBlocks(runs[|runs| - 1])
  }

  /** No stretch is empty, and between two of them there is another block. */
  ghost predicate Stretches(runs: seq<Run>, blocks: nat) {
    && (forall k :: 0 <= k < |runs| ==> runs[k].start < runs[k].end <= blocks)
    && (forall k :: 0 <= k < |runs| - 1 ==> runs[k].end < runs[k + 1].start)
  }

  ghost predicate EndBefore(runs: seq<Run>, cur: nat) {
    runs != [] ==> runs[|runs| - 1].end < cur
  }

  lemma NextStretch(runs: seq<Run>, blocks: nat, cur: nat, end: nat)
    requires Stretches(runs, blocks) && EndBefore(runs, cur) && cur <= end <= blocks
    ensures EndBefore(runs, end + 1)
    ensures cur < end ==> Stretches(runs + [Run(cur, end)], blocks) && EndBefore(runs + [Run(cur, end)], end + 1)
  {
  }

  /** The callback sees the blocks of each call from the start up to the end. */
  lemma {:induction false} SeenExactly(runs: seq<Run>, i: nat)
    ensures i in Seen(runs) <==> exists k :: 0 <= k < |runs| && runs[k].start <= i < runs[k].end
  {
    if runs != [] {
      var n := |runs| - 1;
      SeenExactly(runs[..n], i);
      RunExactly(runs[n], i);
      hide RunBlocks;
      assert runs == runs[..n] + [runs[n]];
    }
  }

  lemma RunExactly(r: Run, i: nat)
    ensures i in RunBlocks(r) <==> r.start <= i < r.end
  {
    if r.start <= i < r.end {
      assert RunBlocks(r)[i - r.start] == i;
    }
  }

  /** Blocks below `cur` have been dealt with: seen unless free. */
  ghost predicate SeenBelow(runs: seq<Run>, free: seq<nat>, cur: nat) {
    && Ascending(Seen(runs))
    && (forall i :: i in Seen(runs) <==> 0 <= i < cur && i !in free)
  }

  lemma SeenRun(runs: seq<Run>, free: seq<nat>, cur: nat, end: nat)
    requires SeenBelow(runs, free, cur) && cur <= end && forall i :: cur <= i < end ==> i !in free
    ensures SeenBelow(runs + [Run(cur, end)], free, end)
    ensures cur == end ==> SeenBelow(runs, free, end)
  {
    var more := runs + [Run(cur, end)];
    assert more[..|runs|] == runs;
    TailElements(cur, end);
    forall i ensures i in Seen(more) <==> 0 <= i < end && i !in free {
      assert i in Seen(more) <==> i in Seen(runs) || i in Tail(cur, end);
    }
    assert forall k :: 0 <= k < |Seen(runs)| ==> Seen(runs)[k] in Seen(runs);
  }

  lemma SeenFree(runs: seq<Run>, free: seq<nat>, cur: nat, next: nat)
    requires SeenBelow(runs, free, cur) && cur <= next && forall i :: cur <= i < next ==> i in free
    ensures SeenBelow(runs, free, next)
  {
  }

  /** Between two neighbours of an ascending list nothing else is listed. */
  lemma Gap(free: seq<nat>, m: nat, cur: nat, n: nat)
    requires Ascending(free) && m <= |free| && (m < |free| ==> free[m] < n)
    requires cur == if m == 0 then 0 else free[m - 1] + 1
    ensures forall i :: cur <= i < (if m < |free| then free[m] else n) ==> i !in free
    ensures m < |free| ==> cur <= free[m]
  {
    forall i | i in free && cur <= i ensures m < |free| && free[m] <= i {
      var k :| 0 <= k < |free| && free[k] == i;
      assert k >= m;
    }
  }

  /** One callback per stretch of blocks that are handed out, in ascending order: together they
      see every such block exactly once, and no free one. */
  method WalkPage(p: Page) returns (runs: seq<Run>)
    requires p.Listed() && Ascending(p.free)
    ensures Ascending(Seen(runs))
    ensures forall i :: i in Seen(runs) <==> 0 <= i < p.blocks && i !in p.free
    ensures Stretches(runs, p.blocks)
  {
    hide Denotes;
    hide Ascending;
    hide SeenBelow;
    DenotesInRange(p.next[..], p.first, p.free);
    DenotesNotOne(p.next[..], p.first, p.free);
    runs := [];
    var cur := 0;
    var freeBlock := p.first;
    ghost var m := 0;
    NothingSeen(p.free);
    assert p.free[0..] == p.free;
    assert Stretches(runs, p.blocks) && EndBefore(runs, 0);
    hide Stretches, EndBefore;
    while true
      invariant 0 <= m <= |p.free| && SeenBelow(runs, p.free, cur)
      invariant cur == if m == 0 then 0 else p.free[m - 1] + 1
      invariant freeBlock != One ==> Denotes(p.next[..], freeBlock, p.free[m..])
      invariant freeBlock == One ==> m > 0 && p.free[m - 1..] == Tail(p.free[m - 1], p.blocks)
      invariant Stretches(runs, p.blocks) && EndBefore(runs, cur)
      decreases |p.free| - m, if freeBlock == One then 0 else 1
    {
      Gap(p.free, m, cur, p.blocks);
      if freeBlock == Null {
        NullEnds(p.next[..], p.free, m);
        SeenRun(runs, p.free, cur, p.blocks);
        NextStretch(runs, p.blocks, cur, p.blocks);
        if p.blocks != cur {
          runs := runs + [Run(cur, p.blocks)];
        }
        cur := p.blocks;
        break;
      } else if freeBlock == One {
        AllFreeFrom(p.free, m, p.blocks);
        SeenFree(runs, p.free, cur, p.blocks);
        cur := p.blocks;
        break;
      }
      var end := freeBlock.i;
      DenotesStep(p.next[..], end, p.free[m..]);
      assert p.free[m..][1..] == p.free[m + 1..];
      freeBlock := p.next[end];
      SeenRun(runs, p.free, cur, end);
      NextStretch(runs, p.blocks, cur, end);
      if end != cur {
        runs := runs + [Run(cur, end)];
      }
      SeenFree(runs, p.free, end, end + 1);
      cur := end + 1;
      m := m + 1;
    }
    AllSeen(runs, p.free, cur);
  }

  lemma NothingSeen(free: seq<nat>)
    ensures SeenBelow([], free, 0)
  {
  }

  lemma AllSeen(runs: seq<Run>, free: seq<nat>, cur: nat)
    requires SeenBelow(runs, free, cur)
    ensures Ascending(Seen(runs))
    ensures forall i :: i in Seen(runs) <==> 0 <= i < cur && i !in free
  {
  }

  lemma NullEnds(next: seq<Next>, free: seq<nat>, m: nat)
    requires m <= |free| && Denotes(next, Null, free[m..])
    ensures m == |free|
  {
  }

  lemma AllFreeFrom(free: seq<nat>, m: nat, n: nat)
    requires 0 < m <= |free| && free[m - 1] < n && free[m - 1..] == Tail(free[m - 1], n)
    ensures forall i :: free[m - 1] + 1 <= i < n ==> i in free
  {
    forall i | free[m - 1] + 1 <= i < n ensures i in free {
      assert free[m - 1..][i - free[m - 1]] == i;
    }
  }
}
