/** The dynamic program for longest common sequences: rows are taken from the last to the first,
    two table rows take turns, and rows without entries are skipped. */
module DiffDyn {
  import opened LcsSpec
  import opened DiffLinks

  // ---- What a table cell means ----

  /** s only uses b-positions from `base` on. */
  ghost predicate StartsAt(s: seq<nat>, base: nat) {
    s != [] ==> base <= s[0]
  }

  /** path is a longest common sequence of the rows from n on and the positions from `base` on. */
  ghost predicate BestFrom(t: Table, n: nat, base: nat, path: seq<nat>)
    requires n <= |t|
  {
    && Up(t, n, path) && StartsAt(path, base)
    && forall s :: Up(t, n, s) && StartsAt(s, base) ==> |s| <= |path|
  }

  lemma {:induction false} UpTail(t: Table, n: nat, s: seq<nat>)
    requires n <= |t| && Up(t, n, s) && s != []
    ensures Up(t, n, s[1..]) && (|s| > 1 ==> s[0] < s[1])
    decreases |t| - n
  {
    if Up(t, n + 1, s) {
      UpTail(t, n + 1, s);
    }
  }

  lemma {:induction false} UpBound(t: Table, n: nat, s: seq<nat>, blen: nat)
    requires n <= |t| && Up(t, n, s) && s != [] && ValidTable(t, blen)
    ensures s[0] < blen
    decreases |t| - n
  {
    if Up(t, n + 1, s) {
      UpBound(t, n + 1, s, blen);
    }
  }

  /** Position `base` occurs in row n: it goes in front of the best that follows both. */
  lemma EqualCell(t: Table, n: nat, base: nat, path: seq<nat>)
    requires n < |t| && base in t[n] && BestFrom(t, n + 1, base + 1, path)
    ensures BestFrom(t, n, base, [base] + path)
  {
    var best := [base] + path;
    assert best[1..] == path;
    assert UpStep(t, n, best);
    forall s | Up(t, n, s) && StartsAt(s, base) ensures |s| <= |best| {
      if s != [] {
        if Up(t, n + 1, s) {
          UpTail(t, n + 1, s);
        } else {
          assert UpStep(t, n, s);
        }
        assert |s| == 1 ==> s[1..] == [];
        assert Up(t, n + 1, s[1..]) && StartsAt(s[1..], base + 1);
      }
    }
  }

  /** Position `base` does not occur in row n: one of the neighbours is best. */
  lemma DifferCell(t: Table, n: nat, base: nat, below: seq<nat>, right: seq<nat>)
    requires n < |t| && base !in t[n]
    requires BestFrom(t, n + 1, base, below) && BestFrom(t, n, base + 1, right)
    ensures BestFrom(t, n, base, if |below| > |right| then below else right)
  {
    forall s | Up(t, n, s) && StartsAt(s, base) ensures |s| <= |below| || |s| <= |right| {
      if s != [] && s[0] == base {
        assert !UpStep(t, n, s);
      } else {
        assert StartsAt(s, base + 1);
      }
    }
  }

  lemma EmptyRow(t: Table, n: nat, base: nat, path: seq<nat>)
    requires n < |t| && t[n] == [] && BestFrom(t, n + 1, base, path)
    ensures BestFrom(t, n, base, path)
  {
  }

  lemma PastEnd(t: Table, n: nat, blen: nat)
    requires n <= |t| && ValidTable(t, blen)
    ensures BestFrom(t, n, blen, [])
  {
    forall s | Up(t, n, s) && StartsAt(s, blen) ensures s == [] {
      if s != [] {
        UpBound(t, n, s, blen);
      }
    }
  }

  lemma BestIsLongest(t: Table, path: seq<nat>)
    requires BestFrom(t, 0, 0, path)
    ensures Longest(t, path)
  {
    UpIsCommon(t, path);
    forall r | Common(t, r) ensures |r| <= |path| {
      UpIsCommon(t, r);
    }
  }

  // ---- The table ----

  ghost predicate CellBest(t: Table, n: nat, off: nat, base: nat, P: seq<seq<nat>>)
    requires n <= |t| && off + base < |P|
  {
    BestFrom(t, n, base, P[off + base])
  }

  /** Cells off+from .. off+blen of the table hold the best for row n. */
  ghost predicate RowBest(t: Table, n: nat, off: nat, from: nat, blen: nat, P: seq<seq<nat>>)
    requires n <= |t| && off + blen < |P|
  {
    forall base :: from <= base <= blen ==> CellBest(t, n, off, base, P)
  }

  /** Every cell's depth is the length of its chain; P are the chains. */
  ghost predicate Heads(store: LinkStore, depth: array<nat>, blen: nat, P: seq<seq<nat>>)
    reads store, store.slot, store.nodes, store.live, store.free, depth
  {
    && store.Valid() && P == store.paths
    && store.slot.Length == depth.Length == |P| == 2 * (blen + 1)
    && forall k :: 0 <= k < depth.Length ==> depth[k] == |P[k]|
  }

  ghost predicate Halves(off1: nat, off2: nat, blen: nat) {
    (off1 == 0 && off2 == blen + 1) || (off1 == blen + 1 && off2 == 0)
  }

  /** In row n, cells above `base` of row off1 are done; row off2 still holds row n+1. */
  ghost predicate Filling(t: Table, n: nat, store: LinkStore, depth: array<nat>, off1: nat, off2: nat, blen: nat,
                          base: nat, P: seq<seq<nat>>)
    requires n < |t|
    reads store, store.slot, store.nodes, store.live, store.free, depth
  {
    && Heads(store, depth, blen, P) && Halves(off1, off2, blen) && ValidTable(t, blen)
    && base <= blen
    && RowBest(t, n, off1, base, blen, P)
    && RowBest(t, n + 1, off2, 0, blen, P)
  }

  lemma RowKept(t: Table, n: nat, off: nat, blen: nat, P: seq<seq<nat>>, Q: seq<seq<nat>>)
    requires n <= |t| && off + blen < |P| == |Q| && RowBest(t, n, off, 0, blen, P)
    requires forall k :: off <= k <= off + blen ==> Q[k] == P[k]
    ensures RowBest(t, n, off, 0, blen, Q)
  {
    forall b | 0 <= b <= blen ensures CellBest(t, n, off, b, Q) {
      assert CellBest(t, n, off, b, P);
    }
  }

  lemma Extended(t: Table, n: nat, off1: nat, off2: nat, blen: nat, base: nat, P: seq<seq<nat>>, path: seq<nat>)
    requires n < |t| && Halves(off1, off2, blen) && |P| == 2 * (blen + 1) && 0 < base <= blen
    requires RowBest(t, n, off1, base, blen, P) && RowBest(t, n + 1, off2, 0, blen, P)
    requires BestFrom(t, n, base - 1, path)
    ensures var Q := P[off1 + base - 1 := path];
            RowBest(t, n, off1, base - 1, blen, Q) && RowBest(t, n + 1, off2, 0, blen, Q)
  {
    hide BestFrom;
    var Q := P[off1 + base - 1 := path];
    forall b | base - 1 <= b <= blen ensures CellBest(t, n, off1, b, Q) {
      assert b >= base ==> CellBest(t, n, off1, b, P);
    }
    RowKept(t, n + 1, off2, blen, P, Q);
  }

  /** A cell whose position is not in the row: share the better neighbour's chain. */
  method Differ(t: Table, n: nat, store: LinkStore, depth: array<nat>, off1: nat, off2: nat, blen: nat, base: nat,
                ghost P: seq<seq<nat>>) returns (ghost Q: seq<seq<nat>>)
    requires n < |t| && base < blen && base !in t[n]
    requires Filling(t, n, store, depth, off1, off2, blen, base + 1, P)
    modifies store, store.slot, store.nodes, depth
    ensures Filling(t, n, store, depth, off1, off2, blen, base, Q)
    ensures old(store.nodes) <= store.nodes && fresh(store.nodes - old(store.nodes))
  {
    hide LinkStore.Valid;
    hide BestFrom;
    store.SlotPaths();
    assert CellBest(t, n + 1, off2, base, P) && CellBest(t, n, off1, base + 1, P);
    DifferCell(t, n, base, P[off2 + base], P[off1 + base + 1]);
    if depth[off2 + base] > depth[off1 + base + 1] {
      store.Copy(off1 + base, off2 + base);
      depth[off1 + base] := depth[off2 + base];
    } else {
      store.Copy(off1 + base, off1 + base + 1);
      depth[off1 + base] := depth[off1 + base + 1];
    }
    Q := store.paths;
    Extended(t, n, off1, off2, blen, base + 1, P, Q[off1 + base]);
  }

  /** A cell whose position is in the row: a new node in front of the chain below right. */
  method Equal(t: Table, n: nat, store: LinkStore, depth: array<nat>, off1: nat, off2: nat, blen: nat, ib: nat,
               ghost P: seq<seq<nat>>) returns (ghost Q: seq<seq<nat>>)
    requires n < |t| && ib < blen && ib in t[n]
    requires Filling(t, n, store, depth, off1, off2, blen, ib + 1, P)
    modifies store, store.slot, store.nodes, depth
    ensures Filling(t, n, store, depth, off1, off2, blen, ib, Q)
    ensures old(store.nodes) <= store.nodes && fresh(store.nodes - old(store.nodes))
  {
    hide LinkStore.Valid;
    hide BestFrom;
    store.SlotPaths();
    assert CellBest(t, n + 1, off2, ib + 1, P);
    EqualCell(t, n, ib, P[off2 + ib + 1]);
    var from := off2 + ib + 1;
    store.Renew(off1 + ib, ib, if store.slot[from] == null then -1 else from);
    depth[off1 + ib] := depth[from] + 1;
    Q := store.paths;
    Extended(t, n, off1, off2, blen, ib + 1, P, Q[off1 + ib]);
  }

  /** Cells base-1 down to `stop`, none of whose positions are in the row. */
  method DifferRange(t: Table, n: nat, store: LinkStore, depth: array<nat>, off1: nat, off2: nat, blen: nat,
                     base: nat, stop: nat, ghost P: seq<seq<nat>>) returns (ghost Q: seq<seq<nat>>)
    requires n < |t| && stop <= base && Filling(t, n, store, depth, off1, off2, blen, base, P)
    requires forall x :: stop <= x < base ==> x !in t[n]
    modifies store, store.slot, store.nodes, depth
    ensures Filling(t, n, store, depth, off1, off2, blen, stop, Q)
    ensures old(store.nodes) <= store.nodes && fresh(store.nodes - old(store.nodes))
  {
    hide LinkStore.Valid;
    hide RowBest;
    var b := base;
    Q := P;
    while b > stop
      invariant stop <= b <= base && Filling(t, n, store, depth, off1, off2, blen, b, Q)
      invariant old(store.nodes) <= store.nodes && fresh(store.nodes - old(store.nodes))
    {
      b := b - 1;
      Q := Differ(t, n, store, depth, off1, off2, blen, b, Q);
    }
  }

  /** Fill a whole table row for a row that has entries, from the last position to the first. */
  method FillRow(t: Table, n: nat, store: LinkStore, depth: array<nat>, off1: nat, off2: nat, blen: nat,
                 ghost P: seq<seq<nat>>) returns (ghost Q: seq<seq<nat>>)
    requires n < |t| && Filling(t, n, store, depth, off1, off2, blen, blen, P)
    modifies store, store.slot, store.nodes, depth
    ensures Filling(t, n, store, depth, off1, off2, blen, 0, Q)
    ensures old(store.nodes) <= store.nodes && fresh(store.nodes - old(store.nodes))
  {
    hide LinkStore.Valid;
    hide RowBest;
    var boff := t[n];
    var base, bi := blen, |boff|;
    Q := P;
    while bi > 0
      invariant 0 <= bi <= |boff| && 0 <= base <= blen
      invariant base == if bi < |boff| then boff[bi] else blen
      invariant Filling(t, n, store, depth, off1, off2, blen, base, Q)
      invariant old(store.nodes) <= store.nodes && fresh(store.nodes - old(store.nodes))
    {
      bi := bi - 1;
      var ib := boff[bi];
      assert ib in boff;
      assert forall x :: ib < x < base ==> x !in t[n] by {
        RowGap(boff, bi, blen);
      }
      Q := DifferRange(t, n, store, depth, off1, off2, blen, base, ib + 1, Q);
      Q := Equal(t, n, store, depth, off1, off2, blen, ib, Q);
      base := ib;
    }
    assert forall x :: 0 <= x < base && x in boff ==> boff[0] <= x;
    Q := DifferRange(t, n, store, depth, off1, off2, blen, base, 0, Q);
  }

  lemma RowGap(row: seq<nat>, i: nat, blen: nat)
    requires i < |row| && Ascending(row) && forall x :: x in row ==> x < blen
    ensures row[i] < if i + 1 < |row| then row[i + 1] else blen
    ensures forall x :: row[i] < x < (if i + 1 < |row| then row[i + 1] else blen) ==> x !in row
  {
    assert row[i] in row;
    forall x | x in row && row[i] < x ensures i + 1 < |row| && row[i + 1] <= x {
      var k :| 0 <= k < |row| && row[k] == x;
      assert i < k;
    }
  }

  /** Both table rows are known to be best for no rows at all. */
  lemma EmptyTable(t: Table, blen: nat, P: seq<seq<nat>>)
    requires ValidTable(t, blen) && P == seq(2 * (blen + 1), _ => [])
    ensures RowBest(t, |t|, 0, 0, blen, P)
  {
    forall b | 0 <= b <= blen ensures CellBest(t, |t|, 0, b, P) {
    }
  }

  lemma RowsSkipped(t: Table, n: nat, off: nat, blen: nat, P: seq<seq<nat>>)
    requires n < |t| && t[n] == [] && off + blen < |P| && RowBest(t, n + 1, off, 0, blen, P)
    ensures RowBest(t, n, off, 0, blen, P)
  {
    forall b | 0 <= b <= blen ensures CellBest(t, n, off, b, P) {
      assert CellBest(t, n + 1, off, b, P);
      EmptyRow(t, n, b, P[off + b]);
    }
  }

  lemma LastCell(t: Table, n: nat, off: nat, blen: nat, P: seq<seq<nat>>)
    requires n <= |t| && off + blen < |P| && P[off + blen] == [] && ValidTable(t, blen)
    ensures RowBest(t, n, off, blen, blen, P)
  {
    PastEnd(t, n, blen);
    assert CellBest(t, n, off, blen, P);
  }

  /** Rows n.. are accounted for in table row off1; the cells past the end stay empty. */
  ghost predicate RowsDone(t: Table, n: nat, store: LinkStore, depth: array<nat>, off1: nat, off2: nat, blen: nat)
    requires n <= |t|
    reads store, store.slot, store.nodes, store.live, store.free, depth
  {
    && Heads(store, depth, blen, store.paths) && Halves(off1, off2, blen) && ValidTable(t, blen)
    && RowBest(t, n, off1, 0, blen, store.paths)
    && store.paths[blen] == store.paths[2 * blen + 1] == []
  }

  lemma LastIsEmpty(t: Table, n: nat, off: nat, blen: nat, P: seq<seq<nat>>)
    requires n <= |t| && off + blen < |P| && RowBest(t, n, off, 0, blen, P) && ValidTable(t, blen)
    ensures P[off + blen] == []
  {
    assert CellBest(t, n, off, blen, P);
    if P[off + blen] != [] {
      UpBound(t, n, P[off + blen], blen);
    }
  }

  /** One row of the compare table: swap the table rows and fill, or skip it when it is empty. */
  method OneRow(t: Table, n: nat, store: LinkStore, depth: array<nat>, off1: nat, off2: nat, blen: nat)
    returns (new1: nat, new2: nat)
    requires n < |t| && RowsDone(t, n + 1, store, depth, off1, off2, blen)
    modifies store, store.slot, store.nodes, depth
    ensures RowsDone(t, n, store, depth, new1, new2, blen)
    ensures old(store.nodes) <= store.nodes && fresh(store.nodes - old(store.nodes))
  {
    hide LinkStore.Valid;
    hide RowBest;
    new1, new2 := off1, off2;
    if |t[n]| > 0 {
      new1, new2 := off2, off1;
      LastCell(t, n, new1, blen, store.paths);
      ghost var Q := FillRow(t, n, store, depth, new1, new2, blen, store.paths);
      LastIsEmpty(t, n, new1, blen, Q);
      LastIsEmpty(t, n + 1, new2, blen, Q);
    } else {
      RowsSkipped(t, n, off1, blen, store.paths);
    }
  }

  /** Copy a chain, first element first. */
  method ReadChain(store: LinkStore, head: Link?, sz: nat, ghost full: seq<nat>) returns (res: seq<nat>)
    requires store.Valid() && (head != null ==> head in store.live)
    requires full == (if head == null then [] else head.path) && |full| == sz
    ensures res == full
  {
    hide LinkStore.Valid;
    var r := new nat[sz](_ => 0);
    var i := 0;
    var dml := head;
    while dml != null
      invariant dml != null ==> dml in store.live
      invariant 0 <= i <= sz && (if dml == null then [] else dml.path) == full[i..]
      invariant r[..i] == full[..i]
      decreases sz - i
      modifies r
    {
      store.NodePath(dml);
      assert full[i..][1..] == full[i + 1..];
      r[i] := dml.x;
      i := i + 1;
      dml := dml.prev;
    }
    res := r[..];
  }

  /** The longest sequence of b-positions common to both arrays of a compare table. */
  method DiffDynLongestSequence(cmptbl: Table, blen: nat) returns (res: seq<nat>)
    requires ValidTable(cmptbl, blen)
    ensures Longest(cmptbl, res)
  {
    hide LinkStore.Valid;
    hide RowBest;
    hide Longest;
    var off1: nat, off2: nat := 0, blen + 1;
    var store := new LinkStore(2 * off2);
    var depth := new nat[2 * off2](_ => 0);
    store.SlotPaths();
    EmptyTable(cmptbl, blen, store.paths);
    var i := |cmptbl|;
    while i > 0
      invariant 0 <= i <= |cmptbl|
      invariant fresh(store) && fresh(store.slot) && fresh(store.nodes) && fresh(depth)
      invariant RowsDone(cmptbl, i, store, depth, off1, off2, blen)
    {
      i := i - 1;
      off1, off2 := OneRow(cmptbl, i, store, depth, off1, off2, blen);
    }
    TopCell(cmptbl, off1, blen, store.paths);
    store.SlotPaths();
    res := ReadChain(store, store.slot[off1], depth[off1], store.paths[off1]);
  }

  lemma TopCell(t: Table, off: nat, blen: nat, P: seq<seq<nat>>)
    requires off + blen < |P| && RowBest(t, 0, off, 0, blen, P)
    ensures Longest(t, P[off])
  {
    assert CellBest(t, 0, off, 0, P);
    BestIsLongest(t, P[off]);
  }
}
