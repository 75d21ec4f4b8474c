/** The stack algorithm for longest common sequences: patience-style insertion with a marks
    table, index skipping inside a row, and in-place update of unshared nodes. */
module DiffLongest {
  import opened LcsSpec
  import opened DiffLinks

  // ---- What the stack means, on the sequence of paths its slots lead to ----

  /** Slot k leads to k+1 elements, and the leading elements ascend. */
  ghost predicate Stacked(P: seq<seq<nat>>) {
    && (forall k :: 0 <= k < |P| ==> |P[k]| == k + 1)
    && (forall k, l :: 0 <= k < l < |P| ==> P[k][0] < P[l][0])
  }

  /** P beats or matches s: s is no longer than P, and P ends its length no later. */
  ghost predicate Covers(P: seq<seq<nat>>, s: seq<nat>)
    requires Stacked(P)
  {
    s != [] ==> |s| <= |P| && P[|s| - 1][0] <= s[0]
  }

  /** After n rows: every path is a common sequence, and every common sequence is covered. */
  ghost predicate AfterRows(t: Table, n: nat, P: seq<seq<nat>>)
    requires n <= |t|
  {
    && Stacked(P)
    && (forall k :: 0 <= k < |P| ==> Down(t, n, P[k]))
    && (forall s :: Down(t, n, s) ==> Covers(P, s))
  }

  /** Value x of row n belongs to the part j.. that has been handled. */
  ghost predicate Handled(t: Table, n: nat, j: nat, x: nat)
    requires n < |t| && j <= |t[n]|
  {
    j < |t[n]| && t[n][j] <= x
  }

  /** Inside row n, with entries j.. handled. */
  ghost predicate InRow(t: Table, n: nat, j: nat, P: seq<seq<nat>>)
    requires n < |t| && j <= |t[n]|
  {
    && Stacked(P)
    && (forall k :: 0 <= k < |P| ==> Down(t, n + 1, P[k]))
    && (forall k :: 0 <= k < |P| && !Handled(t, n, j, P[k][0]) ==> Down(t, n, P[k]))
    && (forall s :: Down(t, n, s) ==> Covers(P, s))
    && (forall s :: DownStep(t, n, s) && Handled(t, n, j, s[0]) ==> Covers(P, s))
  }

  lemma RowStart(t: Table, n: nat, P: seq<seq<nat>>)
    requires n < |t| && AfterRows(t, n, P)
    ensures InRow(t, n, |t[n]|, P)
  {
  }

  lemma RowEnd(t: Table, n: nat, P: seq<seq<nat>>)
    requires n < |t| && Ascending(t[n]) && InRow(t, n, 0, P)
    ensures AfterRows(t, n + 1, P)
  {
    forall s | Down(t, n + 1, s) ensures Covers(P, s) {
      if DownStep(t, n, s) {
        assert Handled(t, n, 0, s[0]);
      }
    }
  }

  /** The stack after x is inserted at pos. */
  ghost function Inserted(P: seq<seq<nat>>, pos: nat, x: nat): seq<seq<nat>>
    requires pos <= |P|
  {
    var s := [x] + (if pos > 0 then P[pos - 1] else []);
    if pos == |P| then P + [s] else P[pos := s]
  }

  /** What insertion at pos asks: entries i..j of row n all belong between slots pos-1 and pos. */
  ghost predicate Fits(t: Table, n: nat, i: nat, j: nat, pos: nat, P: seq<seq<nat>>) {
    && n < |t| && i < j <= |t[n]| && Ascending(t[n]) && InRow(t, n, j, P)
    && pos <= |P|
    && (pos > 0 ==> P[pos - 1][0] < t[n][i])
    && (pos < |P| ==> t[n][j - 1] < P[pos][0])
  }

  lemma InsertedOrder(P: seq<seq<nat>>, pos: nat, x: nat)
    requires Stacked(P) && pos <= |P| && (pos > 0 ==> P[pos - 1][0] < x) && (pos < |P| ==> x < P[pos][0])
    ensures var Q := Inserted(P, pos, x);
            && Stacked(Q)
            && |P| <= |Q|
            && Q[pos] == [x] + (if pos > 0 then P[pos - 1] else [])
            && (forall k :: 0 <= k < |P| ==> Q[k][0] <= P[k][0])
            && (forall k :: 0 <= k < |Q| && k != pos ==> k < |P| && Q[k] == P[k])
  {
    var Q := Inserted(P, pos, x);
    assert forall k :: 0 <= k < pos ==> Q[k] == P[k] && P[k][0] <= P[pos - 1][0];
    assert forall k :: pos < k < |Q| ==> Q[k] == P[k] && P[pos][0] < P[k][0];
  }

  lemma InsertedPaths(t: Table, n: nat, i: nat, j: nat, pos: nat, P: seq<seq<nat>>)
    requires Fits(t, n, i, j, pos, P)
    ensures var Q := Inserted(P, pos, t[n][i]);
            && Stacked(Q)
            && DownStep(t, n, Q[pos])
            && |P| <= |Q|
            && (forall k :: 0 <= k < |P| ==> Q[k][0] <= P[k][0])
            && (forall k :: 0 <= k < |Q| && k != pos ==> k < |P| && Q[k] == P[k])
  {
    var x := t[n][i];
    assert x <= t[n][j - 1];
    InsertedOrder(P, pos, x);
    if pos > 0 {
      assert j < |t[n]| ==> x < t[n][j];
      assert !Handled(t, n, j, P[pos - 1][0]);
      assert ([x] + P[pos - 1])[1..] == P[pos - 1];
    }
  }

  /** Inserting entry i of the row settles entries i..j at once, when they all belong at pos. */
  lemma InsertStep(t: Table, n: nat, i: nat, j: nat, pos: nat, P: seq<seq<nat>>)
    requires Fits(t, n, i, j, pos, P)
    ensures InRow(t, n, i, Inserted(P, pos, t[n][i]))
  {
    var Q := Inserted(P, pos, t[n][i]);
    InsertedPaths(t, n, i, j, pos, P);
    forall k | 0 <= k < |Q| && !Handled(t, n, i, Q[k][0]) ensures Down(t, n, Q[k]) {
      assert j < |t[n]| ==> t[n][i] < t[n][j];
      assert !Handled(t, n, j, Q[k][0]);
    }
    forall s | Down(t, n, s) ensures Covers(Q, s) {
      assert Covers(P, s);
    }
    forall s | DownStep(t, n, s) && Handled(t, n, i, s[0]) ensures Covers(Q, s) {
      if Handled(t, n, j, s[0]) {
        assert Covers(P, s);
      } else {
        CoversNewest(t, n, i, j, pos, P, s);
      }
    }
  }

  /** The order argument behind CoversNewest: s ends between x and hi, which fit at pos. */
  lemma CoversByOrder(P: seq<seq<nat>>, pos: nat, x: nat, hi: nat, s: seq<nat>)
    requires Stacked(P) && pos <= |P| && Stacked(Inserted(P, pos, x))
    requires (pos > 0 ==> P[pos - 1][0] < x) && (pos < |P| ==> hi < P[pos][0])
    requires s != [] && x <= s[0] <= hi && (|s| > 1 ==> s[1] < s[0])
    requires Covers(P, s[1..])
    ensures Covers(Inserted(P, pos, x), s)
  {
    var n := |s| - 1;
    if n > 0 {
      assert s[1..][0] == s[1];
      assert n <= |P| && P[n - 1][0] < s[0];
      assert forall k :: 0 <= k < n ==> P[k][0] <= P[n - 1][0];
    }
    assert n <= pos;
    assert n < pos ==> P[n][0] <= P[pos - 1][0];
  }

  /** An entry between i and j cannot end a sequence sooner, or longer, than entry i does. */
  lemma CoversNewest(t: Table, n: nat, i: nat, j: nat, pos: nat, P: seq<seq<nat>>, s: seq<nat>)
    requires Fits(t, n, i, j, pos, P)
    requires DownStep(t, n, s) && Handled(t, n, i, s[0]) && !Handled(t, n, j, s[0])
    requires Stacked(Inserted(P, pos, t[n][i]))
    ensures Covers(Inserted(P, pos, t[n][i]), s)
  {
    assert s[0] <= t[n][j - 1] by {
      var q :| 0 <= q < |t[n]| && t[n][q] == s[0];
      assert q <= j - 1;
    }
    assert Covers(P, s[1..]);
    CoversByOrder(P, pos, t[n][i], t[n][j - 1], s);
  }

  lemma CoversExisting(P: seq<seq<nat>>, p: nat, s: seq<nat>)
    requires Stacked(P) && p < |P| && s != [] && P[p][0] == s[0] && (|s| > 1 ==> s[1] < s[0])
    requires Covers(P, s[1..])
    ensures Covers(P, s)
  {
    var n := |s| - 1;
    if n > 0 {
      assert s[1..][0] == s[1];
      assert n <= |P| && P[n - 1][0] < P[p][0];
      assert p != n - 1;
      assert !(p < n - 1);
    }
    assert n <= p;
  }

  /** An entry already leading a path changes nothing. */
  lemma SkipStep(t: Table, n: nat, j: nat, p: nat, P: seq<seq<nat>>)
    requires n < |t| && 0 < j <= |t[n]| && Ascending(t[n]) && InRow(t, n, j, P)
    requires p < |P| && P[p][0] == t[n][j - 1]
    ensures InRow(t, n, j - 1, P)
  {
    forall s | DownStep(t, n, s) && Handled(t, n, j - 1, s[0]) ensures Covers(P, s) {
      if !Handled(t, n, j, s[0]) {
        NextEntry(t[n], j, s[0]);
        assert Covers(P, s[1..]);
        CoversExisting(P, p, s);
      }
    }
  }

  lemma NextEntry(row: seq<nat>, j: nat, x: nat)
    requires Ascending(row) && 0 < j <= |row| && x in row && row[j - 1] <= x && (j < |row| ==> x < row[j])
    ensures x == row[j - 1]
  {
  }

  lemma {:induction false} DownLength(t: Table, n: nat, s: seq<nat>)
    requires n <= |t| && Down(t, n, s)
    ensures |s| <= n
    decreases n
  {
    if s != [] {
      if Down(t, n - 1, s) {
        DownLength(t, n - 1, s);
      } else {
        DownLength(t, n - 1, s[1..]);
      }
    }
  }

  // ---- The algorithm ----

  /** Binary search of the stack: the slot led by x, or else the first one led by more. */
  method PonderStack(x: nat, store: LinkStore, top: nat, ghost P: seq<seq<nat>>) returns (pos: nat)
    requires Framed(store, top, P) && Stacked(P)
    ensures pos <= top
    ensures forall k :: 0 <= k < pos ==> P[k][0] < x
    ensures forall k :: pos <= k < top ==> x <= P[k][0]
  {
    hide LinkStore.Valid;
    var a, b := 0, top;
    while a < b
      invariant 0 <= a <= b <= top
      invariant forall k :: 0 <= k < a ==> P[k][0] < x
      invariant forall k :: b <= k < top ==> x < P[k][0]
    {
      var middle := (a + b) / 2;
      if store.slot[middle].x < x {
        a := middle + 1;
      } else if store.slot[middle].x > x {
        b := middle;
      } else {
        return middle;
      }
    }
    if a < top && store.slot[a].x < x {
      a := a + 1;
    }
    return a;
  }

  /** Binary search of a row: the entry x, or else the first larger one, among the first top. */
  method PonderArray(x: nat, arr: seq<nat>, top: nat) returns (pos: nat)
    requires top <= |arr| && Ascending(arr)
    ensures pos <= top
    ensures forall k :: 0 <= k < pos ==> arr[k] < x
    ensures forall k :: pos <= k < top ==> x <= arr[k]
  {
    var a, b := 0, top;
    while a < b
      invariant 0 <= a <= b <= top
      invariant forall k :: 0 <= k < a ==> arr[k] < x
      invariant forall k :: b <= k < top ==> x < arr[k]
    {
      var middle := (a + b) / 2;
      if arr[middle] < x {
        a := middle + 1;
      } else if arr[middle] > x {
        b := middle;
      } else {
        return middle;
      }
    }
    if a < top && arr[a] < x {
      a := a + 1;
    }
    return a;
  }

  ghost predicate OnStack(P: seq<seq<nat>>, x: nat)
    requires Stacked(P)
  {
    exists k :: 0 <= k < |P| && P[k][0] == x
  }

  /** The marks say which values lead a path of the stack. */
  ghost predicate Marked(marks: seq<bool>, P: seq<seq<nat>>) {
    && Stacked(P)
    && (forall k :: 0 <= k < |P| ==> P[k][0] < |marks|)
    && (forall x :: 0 <= x < |marks| ==> (marks[x] <==> OnStack(P, x)))
  }

  /** The slots below top are in use and lead to the paths P, the others are still empty. */
  ghost predicate Framed(store: LinkStore, top: nat, P: seq<seq<nat>>)
    reads store, store.slot, store.nodes, store.live, store.free
  {
    && store.Valid() && top == |P| <= store.slot.Length == |store.paths|
    && (forall k :: 0 <= k < top ==> store.paths[k] == P[k])
    && (forall k :: 0 <= k < top ==> store.slot[k] != null && P[k] != [] && P[k][0] == store.slot[k].x)
    && (forall k :: top <= k < store.slot.Length ==> store.slot[k] == null)
  }

  /** Put x at pos: a new node on top, the node in place when unshared, else a fresh node. */
  method Put(store: LinkStore, top: nat, pos: nat, x: nat, ghost P: seq<seq<nat>>) returns (newTop: nat)
    requires Framed(store, top, P) && pos <= top && pos < store.slot.Length
    modifies store, store.slot, store.nodes
    ensures newTop == (if pos == top then top + 1 else top) && Framed(store, newTop, Inserted(P, pos, x))
    ensures old(store.nodes) <= store.nodes && fresh(store.nodes - old(store.nodes))
  {
    hide LinkStore.Valid;
    store.SlotPaths();
    newTop := top;
    if pos == top {
      store.Push(pos, x, pos - 1);
      newTop := top + 1;
    } else if pos > 0 && store.slot[pos].refs == 1 && store.slot[pos - 1] == store.slot[pos].prev {
      store.Rewrite(pos, x);
    } else {
      store.Replace(pos, x, pos - 1);
    }
    store.SlotPaths();
  }

  /** Everything that holds between two entries of row n, entries j.. handled. */
  ghost predicate Between(t: Table, n: nat, j: nat, store: LinkStore, top: nat, marks: seq<bool>, P: seq<seq<nat>>)
    requires n < |t| && j <= |t[n]|
    reads store, store.slot, store.nodes, store.live, store.free
  {
    Framed(store, top, P) && store.slot.Length == |t| && Marked(marks, P) && InRow(t, n, j, P)
  }

  lemma MarksMoved(marks: seq<bool>, P: seq<seq<nat>>, pos: nat, x: nat, next: seq<bool>)
    requires Marked(marks, P) && pos <= |P| && x < |marks| && Stacked(Inserted(P, pos, x))
    requires next == (if pos < |P| then marks[P[pos][0] := false] else marks)[x := true]
    ensures Marked(next, Inserted(P, pos, x))
  {
    var Q := Inserted(P, pos, x);
    assert Q[pos][0] == x;
    forall y | 0 <= y < |next| ensures next[y] <==> OnStack(Q, y) {
      if OnStack(P, y) {
        var k :| 0 <= k < |P| && P[k][0] == y;
        assert k != pos ==> Q[k][0] == y;
      }
      if y != x && OnStack(Q, y) {
        var k :| 0 <= k < |Q| && Q[k][0] == y;
        assert k != pos && P[k][0] == y;
        assert pos < |P| ==> P[pos][0] != y;
      }
    }
  }

  /** Where the unmarked x belongs; the value it will displace loses its mark. */
  method FindPos(x: nat, store: LinkStore, top: nat, marks: array<bool>, ghost P: seq<seq<nat>>) returns (pos: nat)
    requires Framed(store, top, P) && Marked(marks[..], P)
    requires x < marks.Length && !marks[x]
    modifies marks
    ensures pos <= top
    ensures forall k :: 0 <= k < pos ==> P[k][0] < x
    ensures forall k :: pos <= k < top ==> x < P[k][0]
    ensures marks[..] == if pos < top then old(marks[..])[P[pos][0] := false] else old(marks[..])
  {
    hide LinkStore.Valid;
    assert !OnStack(P, x) by { assert !marks[..][x]; }
    pos := top;
    if top > 0 && x <= store.slot[top - 1].x {
      pos := PonderStack(x, store, top, P);
      if pos != top {
        marks[store.slot[pos].x] := false;
      }
    }
  }

  /** The entry to insert at pos: entry j0, or an earlier one that belongs there as well. */
  method SkipAhead(inner: seq<nat>, j0: nat, pos: nat, store: LinkStore, top: nat, marks: array<bool>,
                   ghost P: seq<seq<nat>>)
    returns (j: nat)
    requires Framed(store, top, P) && pos <= top && Ascending(inner) && j0 < |inner|
    requires forall y :: y in inner ==> y < marks.Length
    requires pos > 0 ==> P[pos - 1][0] < inner[j0]
    ensures j <= j0 && (pos > 0 ==> P[pos - 1][0] < inner[j])
  {
    hide LinkStore.Valid;
    j := j0;
    if pos > 0 && j > 0 {
      assert inner[j - 1] in inner;
      if !marks[inner[j - 1]] {
        j := PonderArray(store.slot[pos - 1].x + 1, inner, j);
      }
    } else {
      j := 0;
    }
  }

  /** One entry of a row: skip it when marked, else insert it or the one it may skip to. */
  method Entry(t: Table, n: nat, j0: nat, store: LinkStore, top: nat, marks: array<bool>, ghost P: seq<seq<nat>>)
    returns (j: nat, newTop: nat, ghost Q: seq<seq<nat>>)
    requires n < |t| && j0 < |t[n]| && ValidTable(t, marks.Length)
    requires Between(t, n, j0 + 1, store, top, marks[..], P)
    modifies store, store.slot, store.nodes, marks
    ensures j <= j0 && Between(t, n, j, store, newTop, marks[..], Q)
    ensures old(store.nodes) <= store.nodes && fresh(store.nodes - old(store.nodes))
  {
    hide LinkStore.Valid;
    hide InRow;
    var x := t[n][j0];
    assert x in t[n];
    assert marks[..][x] == marks[x];
    if !marks[x] {
      var pos := FindPos(x, store, top, marks, P);
      j := SkipAhead(t[n], j0, pos, store, top, marks, P);
      x := t[n][j];
      assert x in t[n];
      marks[x] := true;
      assert Fits(t, n, j, j0 + 1, pos, P);
      InsertedPaths(t, n, j, j0 + 1, pos, P);
      InsertStep(t, n, j, j0 + 1, pos, P);
      MarksMoved(old(marks[..]), P, pos, x, marks[..]);
      DownLength(t, n + 1, Inserted(P, pos, x)[pos]);
      Q := Inserted(P, pos, x);
      newTop := Put(store, top, pos, x, P);
    } else {
      j, newTop, Q := j0, top, P;
      ghost var p :| 0 <= p < |P| && P[p][0] == x;
      SkipStep(t, n, j + 1, p, P);
    }
  }

  /** Everything that holds between two rows. */
  ghost predicate AtRow(t: Table, n: nat, store: LinkStore, top: nat, marks: seq<bool>, P: seq<seq<nat>>)
    requires n <= |t|
    reads store, store.slot, store.nodes, store.live, store.free
  {
    Framed(store, top, P) && store.slot.Length == |t| && Marked(marks, P) && AfterRows(t, n, P)
  }

  /** One row, from its last entry to its first. */
  method OneRow(t: Table, n: nat, store: LinkStore, top: nat, marks: array<bool>, ghost P: seq<seq<nat>>)
    returns (newTop: nat, ghost Q: seq<seq<nat>>)
    requires n < |t| && ValidTable(t, marks.Length) && AtRow(t, n, store, top, marks[..], P)
    modifies store, store.slot, store.nodes, marks
    ensures AtRow(t, n + 1, store, newTop, marks[..], Q)
    ensures old(store.nodes) <= store.nodes && fresh(store.nodes - old(store.nodes))
  {
    hide LinkStore.Valid;
    hide InRow;
    RowStart(t, n, P);
    newTop, Q := RowEntries(t, n, store, top, marks, P);
    RowEnd(t, n, Q);
  }

  method RowEntries(t: Table, n: nat, store: LinkStore, top: nat, marks: array<bool>, ghost P: seq<seq<nat>>)
    returns (newTop: nat, ghost Q: seq<seq<nat>>)
    requires n < |t| && ValidTable(t, marks.Length)
    requires Between(t, n, |t[n]|, store, top, marks[..], P)
    modifies store, store.slot, store.nodes, marks
    ensures Between(t, n, 0, store, newTop, marks[..], Q)
    ensures old(store.nodes) <= store.nodes && fresh(store.nodes - old(store.nodes))
  {
    hide Between;
    hide LinkStore.Valid;
    var j: nat := |t[n]|;
    newTop, Q := top, P;
    while j > 0
      invariant j <= |t[n]| && Between(t, n, j, store, newTop, marks[..], Q)
      invariant old(store.nodes) <= store.nodes && fresh(store.nodes - old(store.nodes))
    {
      j, newTop, Q := Entry(t, n, j - 1, store, newTop, marks, Q);
    }
  }

  /** Read the chain of the top node into an array, from the last element to the first. */
  method ReadChain(store: LinkStore, top: nat, ghost full: seq<nat>) returns (a: seq<nat>)
    requires store.Valid() && 0 < top <= store.slot.Length && store.slot[top - 1] != null
    requires full == store.slot[top - 1].path && |full| == top
    ensures a == Reverse(full)
  {
    hide LinkStore.Valid;
    store.SlotPaths();
    var r := new nat[top](_ => 0);
    var at := top;
    var dml := store.slot[top - 1];
    while dml != null
      invariant dml != null ==> dml in store.live
      invariant 0 <= at <= top && (if dml == null then [] else dml.path) == full[top - at..]
      invariant forall k :: at <= k < top ==> r[k] == full[top - 1 - k]
      decreases at
      modifies r
    {
      store.NodePath(dml);
      assert full[top - at..][1..] == full[top - at + 1..];
      at := at - 1;
      r[at] := dml.x;
      dml := dml.prev;
    }
    a := r[..];
  }

  lemma NoRows(t: Table, marks: seq<bool>)
    requires forall x :: 0 <= x < |marks| ==> !marks[x]
    ensures AfterRows(t, 0, []) && Marked(marks, [])
  {
  }

  /** When all rows are done, the top path is a longest common sequence, read backwards. */
  lemma StackIsBest(t: Table, P: seq<seq<nat>>)
    requires AfterRows(t, |t|, P)
    ensures Longest(t, if P == [] then [] else Reverse(P[|P| - 1]))
  {
    var best := if P == [] then [] else P[|P| - 1];
    forall r | Down(t, |t|, r) ensures |r| <= |best| {
      assert Covers(P, r);
    }
    LongestFromDown(t, best);
  }

  method Start(t: Table, blen: nat) returns (store: LinkStore, marks: array<bool>)
    ensures fresh(store) && fresh(store.slot) && fresh(store.nodes) && fresh(marks) && marks.Length == blen
    ensures AtRow(t, 0, store, 0, marks[..], [])
  {
    hide LinkStore.Valid;
    store := new LinkStore(|t|);
    marks := new bool[blen](_ => false);
    store.SlotPaths();
    NoRows(t, marks[..]);
  }

  /** The longest sequence of b-positions common to both arrays of a compare table. */
  method DiffLongestSequence(cmptbl: Table, blen: nat) returns (a: seq<nat>)
    requires ValidTable(cmptbl, blen)
    ensures Longest(cmptbl, a)
  {
    hide LinkStore.Valid;
    hide Longest;
    hide AfterRows;
    if |cmptbl| == 0 {
      NoRows(cmptbl, []);
      StackIsBest(cmptbl, []);
      return [];
    }
    var store, marks := Start(cmptbl, blen);
    var top := 0;
    ghost var P := [];
    for i := 0 to |cmptbl|
      invariant fresh(store) && fresh(store.slot) && fresh(store.nodes) && fresh(marks) && marks.Length == blen
      invariant AtRow(cmptbl, i, store, top, marks[..], P)
    {
      top, P := OneRow(cmptbl, i, store, top, marks, P);
    }
    StackIsBest(cmptbl, P);
    a := [];
    if top > 0 {
      store.SlotPaths();
      a := ReadChain(store, top, P[top - 1]);
    }
  }
}
