/** The hand-counted link nodes shared by both sequence algorithms.

    A store owns an array of slots (the stack of one algorithm, the two table rows of the
    other) and the nodes they reach.  `refs` counts the slots and `prev` fields that point at a
    node; a node whose count drops to zero goes to a free list threaded through `prev`. */
module DiffLinks {

  /** Who claims a node: a slot, the prev field of another node, or the local variable
      in which a node is being prepared. */
  datatype Holder = Slot(i: int) | From(n: Link) | Local

  class Link {
    var x: nat
    var refs: int
    var prev: Link?
    ghost var holders: set<Holder>
    ghost var path: seq<nat>   // x of this node, of its prev, and so on

    constructor ()
    {
    }

    /** path is x followed by the path of p. */
    ghost predicate Extends(p: Link)
      reads this`x, this`path, p`path
    {
      path == [x] + p.path
    }
  }

  class LinkStore {
    const slot: array<Link?>
    var firstfree: Link?
    ghost var nodes: set<Link>       // every node ever made
    ghost var live: set<Link>
    ghost var free: seq<Link>
    ghost var mine: Link?            // a node claimed by a local variable only
    ghost var dying: Link?           // a node nobody claims any more, about to be freed
    ghost var open: int              // a slot that has given up its claim (-1: none)
    ghost var paths: seq<seq<nat>>   // the path each slot leads to

    /** The free list: distinct dead nodes, threaded through prev. */
    ghost predicate FreeList()
      reads this`free, this`live, this`firstfree, free
    {
      && (forall i :: 0 <= i < |free| ==> free[i] !in live)
      && (forall i, j :: 0 <= i < j < |free| ==> free[i] != free[j])
      && firstfree == (if free == [] then null else free[0])
      && (forall i {:trigger free[i].prev} :: 0 <= i < |free| ==>
            free[i].prev == if i + 1 < |free| then free[i + 1] else null)
    }

    ghost predicate Claims(n: Link, h: Holder)
      reads this`live, this`mine, this`open, slot, live
    {
      match h
      case Slot(i) => 0 <= i < slot.Length && i != open && slot[i] == n
      case From(m) => m in live && m.prev == n
      case Local => mine == n
    }

    /** Every live node is counted exactly. */
    ghost predicate Counted()
      reads this`live, this`mine, this`dying, this`open, slot, live
    {
      && (forall n :: n in live ==> n.refs == |n.holders|)
      && (forall n :: n in live && n != dying ==> n.holders != {})
      && (dying != null ==> dying in live && dying.holders == {})
      && (forall n, h :: n in live && h in n.holders ==> Claims(n, h))
      && (forall m {:trigger m.prev} :: m in live && m.prev != null ==> m.prev in live && From(m) in m.prev.holders)
      && (mine != null ==> mine in live && Local in mine.holders)
      && (forall i :: 0 <= i < slot.Length && i != open && slot[i] != null ==>
            slot[i] in live && Slot(i) in slot[i].holders)
    }

    ghost predicate Pathed()
      reads this`live, this`paths, this`open, slot, live
    {
      && |paths| == slot.Length
      && (forall n {:trigger n.prev} :: n in live && n.prev == null ==> n.path == [n.x])
      && (forall n {:trigger n.prev} :: n in live && n.prev in live ==> n.Extends(n.prev))
      && (forall i :: 0 <= i < slot.Length && i != open && slot[i] == null ==> paths[i] == [])
      && (forall i :: 0 <= i < slot.Length && i != open && slot[i] in live ==> paths[i] == slot[i].path)
    }

    ghost predicate Inv()
      reads this, slot, nodes, live, free
    {
      && live <= nodes
      && (forall i :: 0 <= i < |free| ==> free[i] in nodes)
      && FreeList() && Counted() && Pathed()
    }

    /** No claim is in transit. */
    ghost predicate Valid()
      reads this, slot, nodes, live, free
    {
      mine == null && dying == null && open == -1 && Inv()
    }

    constructor (n: nat)
      ensures Valid() && fresh(slot) && slot.Length == n && nodes == {}
      ensures paths == seq(n, _ => [])
    {
      slot := new Link?[n](_ => null);
      firstfree, mine, dying, open := null, null, null, -1;
      nodes, live, free := {}, {}, [];
      paths := seq(n, _ => []);
    }

    /** A node that nothing claims: the head of the free list, or a new one. */
    method New() returns (n: Link)
      requires Inv()
      modifies this`firstfree, this`free, this`nodes, nodes - live
      ensures Inv()
      ensures n in nodes && n !in live && n !in free
      ensures old(nodes) <= nodes && fresh(nodes - old(nodes))
    {
      if firstfree != null {
        n := firstfree;
        assert n == free[0] && n.prev == if 1 < |free| then free[1] else null;
        firstfree := n.prev;
        n.prev := null;
        free := free[1..];
        assert forall i :: 0 <= i < |free| ==> free[i] == old(free)[i + 1];
        assert FreeList();
      } else {
        n := new Link();
        nodes := nodes + {n};
      }
    }

    /** The plain facts the methods below take from the invariant. */
    lemma Basics()
      requires Inv()
      ensures live <= nodes && |paths| == slot.Length
      ensures forall n :: n in free ==> n !in live && n in nodes
      ensures dying != null ==> dying in live && dying !in free
      ensures mine != null ==> mine in live
      ensures forall i :: 0 <= i < slot.Length && i != open && slot[i] != null ==>
                slot[i] in live && paths[i] == slot[i].path
      ensures forall n {:trigger n.prev} :: n in live && n.prev != null ==> n.prev in live
    {
    }

    /** Paths depend on nothing but the x, prev and path fields of the live nodes. */
    twostate lemma PathedKept()
      requires old(Pathed()) && Counted() && live <= old(live) && (old(open) == open || old(open) == -1)
      requires paths == old(paths) && slot[..] == old(slot[..])
      requires forall n :: n in live ==> n.x == old(n.x) && n.prev == old(n.prev) && n.path == old(n.path)
      ensures Pathed()
    {
      assert forall i :: 0 <= i < slot.Length ==> slot[i] == slot[..][i];
    }

    /** The counts stay exact when a dead node leaves and its claim on prev goes with it. */
    twostate lemma ClaimDropped()
      requires old(dying) != null && old(Counted())
      requires live == old(live) - {old(dying)} && mine == old(mine) && open == old(open) && slot[..] == old(slot[..])
      requires forall n :: n in live ==> n.prev == old(n.prev)
      requires var prev := old(dying.prev);
        && (forall n :: n in live && n != prev ==> n.refs == old(n.refs) && n.holders == old(n.holders))
        && (prev != null ==> prev.refs == old(prev.refs) - 1 && prev.holders == old(prev.holders) - {From(old(dying))})
        && dying == if prev != null && prev.refs == 0 then prev else null
      ensures Counted()
    {
      var prev := old(dying.prev);
      assert forall i :: 0 <= i < slot.Length ==> slot[i] == slot[..][i] && slot[i] == old(slot[..][i]) == old(slot[i]);
      forall n, h | n in live && h in n.holders ensures Claims(n, h) {
        assert old(Claims(n, h));
      }
      assert prev != null ==> prev.refs == |prev.holders|;
    }

    twostate lemma FreeListGrown()
      requires firstfree != null && firstfree in old(live)
      requires old(FreeList()) && firstfree !in old(free) && live == old(live) - {firstfree}
      requires firstfree.prev == old(firstfree) && free == [firstfree] + old(free)
      requires forall n :: n in old(free) ==> n.prev == old(n.prev)
      ensures FreeList()
    {
      assert forall i :: 0 < i < |free| ==> free[i] == old(free)[i - 1];
    }

    twostate lemma NodeFreed()
      requires old(Inv()) && old(dying) != null && firstfree == old(dying)
      requires live == old(live) - {firstfree} && mine == old(mine) && open == old(open) && slot[..] == old(slot[..])
      requires nodes == old(nodes) && paths == old(paths)
      requires firstfree.prev == old(firstfree) && free == [firstfree] + old(free)
      requires forall n :: n in old(free) ==> n.prev == old(n.prev)
      requires forall n :: n in live ==> n.x == old(n.x) && n.prev == old(n.prev) && n.path == old(n.path)
      requires var prev := old(dying.prev);
        && (forall n :: n in live && n != prev ==> n.refs == old(n.refs) && n.holders == old(n.holders))
        && (prev != null ==> prev.refs == old(prev.refs) - 1 && prev.holders == old(prev.holders) - {From(old(dying))})
        && dying == if prev != null && prev.refs == 0 then prev else null
      ensures Inv()
    {
      FreeListGrown();
      ClaimDropped();
      PathedKept();
    }

    /** One round of freeing: put the dead node on the free list and give up its claim on prev.
        `next` is prev when that was its last claim. */
    method FreeOne(dml: Link) returns (next: Link?)
      requires Inv() && dml == dying
      modifies this`firstfree, this`free, this`live, this`dying, live
      ensures Inv() && next == dying
      ensures live == old(live) - {dml} && free == [dml] + old(free)
      ensures forall n :: n in live ==> n.x == old(n.x) && n.prev == old(n.prev) && n.path == old(n.path)
      ensures forall n :: n in live ==> n.holders <= old(n.holders)
    {
      hide Inv;
      Basics();
      var prev := dml.prev;
      dml.prev := firstfree;
      firstfree := dml;
      live := live - {dml};
      free := [dml] + free;
      next := null;
      if prev != null {
        prev.holders := prev.holders - {From(dml)};
        prev.refs := prev.refs - 1;
        if prev.refs == 0 {
          next := prev;
        }
      }
      dying := next;
      NodeFreed();
    }

    /** Free a node nobody claims, and every node only it kept alive. */
    method Delete(dml: Link)
      requires Inv() && dml == dying
      modifies this`firstfree, this`free, this`live, this`dying, live
      ensures Inv() && dying == null
      ensures live <= old(live)
      ensures forall n :: n in live ==> n.x == old(n.x) && n.prev == old(n.prev) && n.path == old(n.path)
      ensures forall n :: n in live ==> n.holders <= old(n.holders)
      ensures forall n :: n in old(live) - live ==> n in free
    {
      var cur: Link? := dml;
      while cur != null
        invariant Inv() && cur == dying
        invariant live <= old(live)
        invariant forall n :: n in live ==> n.x == old(n.x) && n.prev == old(n.prev) && n.path == old(n.path)
        invariant forall n :: n in live ==> n.holders <= old(n.holders)
        invariant forall n :: n in old(live) - live ==> n in free
        decreases live
      {
        cur := FreeOne(cur);
      }
    }

    twostate lemma SlotOpened()
      requires old(Counted()) && old(open) == -1 && 0 <= open < slot.Length && old(dying) == null
      requires live == old(live) && mine == old(mine) && slot[..] == old(slot[..])
      requires forall m :: m in live ==> m.prev == old(m.prev)
      requires forall m :: m in live && m != slot[open] ==> m.refs == old(m.refs) && m.holders == old(m.holders)
      requires var n := slot[open]; n != null ==>
                 n in old(live) && n.refs == old(n.refs) - 1 && n.holders == old(n.holders) - {Slot(open)}
      requires dying == if slot[open] != null && slot[open].refs == 0 then slot[open] else null
      ensures Counted()
    {
      assert forall i :: 0 <= i < slot.Length ==> slot[i] == slot[..][i] && slot[i] == old(slot[..][i]) == old(slot[i]);
      forall m, h | m in live && h in m.holders ensures Claims(m, h) {
        assert old(Claims(m, h));
      }
      assert slot[open] != null ==> slot[open].refs == |slot[open].holders|;
    }

    twostate lemma InvOpened()
      requires old(Inv()) && old(open) == -1 && 0 <= open < slot.Length && old(dying) == null
      requires live == old(live) && mine == old(mine) && slot[..] == old(slot[..])
      requires nodes == old(nodes) && paths == old(paths) && free == old(free) && firstfree == old(firstfree)
      requires forall n :: n in free ==> n.prev == old(n.prev)
      requires forall m :: m in live ==> m.x == old(m.x) && m.prev == old(m.prev) && m.path == old(m.path)
      requires forall m :: m in live && m != slot[open] ==> m.refs == old(m.refs) && m.holders == old(m.holders)
      requires var n := slot[open]; n != null ==>
                 n in old(live) && n.refs == old(n.refs) - 1 && n.holders == old(n.holders) - {Slot(open)}
      requires dying == if slot[open] != null && slot[open].refs == 0 then slot[open] else null
      ensures Inv()
    {
      SlotOpened();
      PathedKept();
    }

    /** Give up the claim of slot k; `last` when its node is left without any. */
    method Unclaim(k: nat) returns (last: bool)
      requires Inv() && dying == null && open == -1 && k < slot.Length
      modifies this`dying, this`open, live
      ensures Inv() && open == k && (last ==> dying == slot[k] != null) && (!last ==> dying == null)
      ensures forall n :: n in live ==> n.x == old(n.x) && n.prev == old(n.prev) && n.path == old(n.path)
      ensures forall n :: n in live ==> n.holders <= old(n.holders)
    {
      hide Inv;
      Basics();
      var n := slot[k];
      last := false;
      open := k;
      if n != null {
        n.holders := n.holders - {Slot(k)};
        n.refs := n.refs - 1;
        if n.refs == 0 {
          last := true;
          dying := n;
        }
      }
      InvOpened();
    }

    /** Give up the claim slot k has on its node; the slot itself is about to be overwritten. */
    method Release(k: nat)
      requires Inv() && dying == null && open == -1 && k < slot.Length
      modifies this`firstfree, this`free, this`live, this`dying, this`open, live
      ensures Inv() && dying == null && open == k && live <= old(live)
      ensures forall n :: n in live ==> n.x == old(n.x) && n.prev == old(n.prev) && n.path == old(n.path)
      ensures forall n :: n in live ==> n.holders <= old(n.holders)
    {
      hide Inv;
      var last := Unclaim(k);
      if last {
        Delete(slot[k]);
      }
    }

    twostate lemma NodeAdded()
      requires old(Counted()) && old(mine) == null && mine != null && mine !in old(live)
      requires live == old(live) + {mine} && slot[..] == old(slot[..]) && open == old(open) &&
               dying == old(dying) == null
      requires mine.refs == 1 && mine.holders == {Local} && (mine.prev != null ==> mine.prev in old(live))
      requires forall m :: m in old(live) ==> m.prev == old(m.prev)
      requires forall m :: m in old(live) && m != mine.prev ==> m.refs == old(m.refs) && m.holders == old(m.holders)
      requires var p := mine.prev; p != null ==>
                 p.refs == old(p.refs) + 1 && p.holders == old(p.holders) + {From(mine)}
      ensures Counted()
    {
      assert forall i :: 0 <= i < slot.Length ==> slot[i] == slot[..][i] && slot[i] == old(slot[..][i]) == old(slot[i]);
      forall m, h | m in live && h in m.holders ensures Claims(m, h) {
        if m != mine && h != From(mine) {
          assert m in old(live) && h in old(m.holders);
          assert old(Claims(m, h));
        }
      }
      var p := mine.prev;
      if p != null {
        assert From(mine) !in old(p.holders);
        assert p.refs == |p.holders|;
      }
    }

    twostate lemma PathAdded()
      requires old(Counted()) && old(Pathed()) && mine != null && mine !in old(live)
      requires live == old(live) + {mine} && paths == old(paths) && slot[..] == old(slot[..]) && open == old(open)
      requires mine.prev != null ==> mine.prev in old(live)
      requires mine.path == [mine.x] + (if mine.prev == null then [] else mine.prev.path)
      requires forall m :: m in old(live) ==> m.x == old(m.x) && m.prev == old(m.prev) && m.path == old(m.path)
      ensures Pathed()
    {
      assert forall i :: 0 <= i < slot.Length ==> slot[i] == slot[..][i] && slot[i] == old(slot[..][i]) == old(slot[i]);
    }

    /** Set the fields of a node that nothing claims yet. */
    method Init(n: Link, x: nat, q: Link?)
      requires Inv() && n in nodes && n !in live && n !in free && (q != null ==> q in live)
      modifies n
      ensures Inv() && n.x == x && n.refs == 1 && n.prev == q && n.holders == {Local}
      ensures n.path == [x] + (if q == null then [] else q.path)
    {
      n.x, n.refs, n.prev, n.holders := x, 1, q, {Local};
      n.path := [x] + (if q == null then [] else q.path);
    }

    /** Count a prepared node in, with the claim it has on its prev. */
    method Enter(n: Link)
      requires Inv() && mine == null && dying == null && n in nodes && n !in live && n !in free
      requires n.refs == 1 && n.holders == {Local} && (n.prev != null ==> n.prev in live)
      requires n.path == [n.x] + (if n.prev == null then [] else n.prev.path)
      modifies this`mine, this`live, live
      ensures Inv() && mine == n && n.holders == {Local} && n.path == old(n.path)
    {
      hide Counted;
      hide Pathed;
      Basics();
      var q := n.prev;
      if q != null {
        q.refs := q.refs + 1;
        q.holders := q.holders + {From(n)};
      }
      mine := n;
      live := live + {n};
      NodeAdded();
      PathAdded();
    }

    /** Make a node for x in front of the node in slot p (p < 0: in front of nothing). */
    method Prepare(x: nat, p: int) returns (n: Link)
      requires Inv() && mine == null && dying == null
      requires p < slot.Length && (p >= 0 ==> p != open && slot[p] != null)
      modifies this`firstfree, this`free, this`nodes, this`mine, this`live, nodes
      ensures Inv() && mine == n && n.holders == {Local}
      ensures n.path == [x] + (if p >= 0 then paths[p] else [])
      ensures old(nodes) <= nodes && fresh(nodes - old(nodes))
    {
      n := New();
      var q := if p >= 0 then slot[p] else null;
      Init(n, x, q);
      Enter(n);
    }

    twostate lemma NodeInstalled()
      requires old(Inv()) && 0 <= old(open) < slot.Length && old(mine) != null && old(dying) == null
      requires mine == null && open == -1 && dying == null && live == old(live)
      requires slot[..] == old(slot[..])[old(open) := old(mine)]
      requires old(mine).path == old(mine.path) && paths == old(paths)[old(open) := old(mine).path]
      requires old(mine.holders) == {Local} && old(mine).holders == {Slot(old(open))}
      requires forall m :: m in live ==>
                 m.x == old(m.x) && m.refs == old(m.refs) && m.prev == old(m.prev) && m.path == old(m.path)
      requires forall m :: m in live && m != old(mine) ==> m.holders == old(m.holders)
      ensures Counted() && Pathed()
    {
      assert forall i :: 0 <= i < slot.Length ==> slot[i] == slot[..][i];
      assert forall i :: 0 <= i < slot.Length && i != old(open) ==> slot[i] == old(slot[..][i]) == old(slot[i]);
      forall m, h | m in live && h in m.holders ensures Claims(m, h) {
        assert m != old(mine) ==> old(Claims(m, h));
      }
    }

    /** Store the prepared node in the slot that was given up. */
    method Install(k: nat, n: Link)
      requires Inv() && dying == null && k == open < slot.Length && n == mine && n.holders == {Local}
      modifies this`mine, this`open, this`paths, slot, n`holders
      ensures Valid() && paths == old(paths)[k := n.path]
    {
      n.holders := {Slot(k)};
      slot[k] := n;
      paths := paths[k := n.path];
      mine, open := null, -1;
      NodeInstalled();
    }

    /** An empty slot claims nothing, so it may as well be open. */
    ghost method OpenEmpty(k: nat)
      requires Inv() && dying == null && open == -1 && k < slot.Length && slot[k] == null
      modifies this`open
      ensures Inv() && open == k
    {
      open := k;
      forall m, h | m in live && h in m.holders ensures Claims(m, h) {
        assert old(Claims(m, h));
      }
    }

    /** Fill the empty slot k with a node for x in front of slot p. */
    method Push(k: nat, x: nat, p: int)
      requires Valid() && k < slot.Length && slot[k] == null
      requires p < slot.Length && (p >= 0 ==> slot[p] != null)
      modifies this, slot, nodes
      ensures Valid() && paths == old(paths)[k := [x] + (if p >= 0 then old(paths)[p] else [])]
      ensures old(nodes) <= nodes && fresh(nodes - old(nodes))
    {
      var n := Prepare(x, p);
      OpenEmpty(k);
      Install(k, n);
    }

    /** Overwrite slot k with a node for x in front of slot p: make first, release after. */
    method Replace(k: nat, x: nat, p: int)
      requires Valid() && k < slot.Length
      requires p < slot.Length && (p >= 0 ==> p != k && slot[p] != null)
      modifies this, slot, nodes
      ensures Valid() && paths == old(paths)[k := [x] + (if p >= 0 then old(paths)[p] else [])]
      ensures old(nodes) <= nodes && fresh(nodes - old(nodes))
    {
      var n := Prepare(x, p);
      Release(k);
      assert n.holders == {Local};
      Install(k, n);
    }

    /** Overwrite slot k with a node for x in front of slot p: release first, make after. */
    method Renew(k: nat, x: nat, p: int)
      requires Valid() && k < slot.Length
      requires p < slot.Length && (p >= 0 ==> p != k && slot[p] != null)
      modifies this, slot, nodes
      ensures Valid() && paths == old(paths)[k := [x] + (if p >= 0 then old(paths)[p] else [])]
      ensures old(nodes) <= nodes && fresh(nodes - old(nodes))
    {
      Release(k);
      var n := Prepare(x, p);
      Install(k, n);
    }

    twostate lemma NodeRewritten(k: int)
      requires old(Valid()) && 0 <= k < slot.Length && slot[k] != null
      requires live == old(live) && mine == null && dying == null && open == -1 && slot[..] == old(slot[..])
      requires var n := slot[k];
        && n in old(live) && old(n.refs) == 1 && paths == old(paths)[k := n.path]
        && n.prev != null && n.path == [n.x] + n.prev.path
      requires forall m :: m in live ==> m.refs == old(m.refs) && m.prev == old(m.prev) && m.holders == old(m.holders)
      requires forall m :: m in live && m != slot[k] ==> m.x == old(m.x) && m.path == old(m.path)
      ensures Counted() && Pathed()
    {
      assert forall i :: 0 <= i < slot.Length ==> slot[i] == slot[..][i] && slot[i] == old(slot[..][i]) == old(slot[i]);
      forall m, h | m in live && h in m.holders ensures Claims(m, h) {
        assert old(Claims(m, h));
      }
      var n := slot[k];
      assert Slot(k) in n.holders && |n.holders| == 1;
      assert |n.holders - {Slot(k)}| == 0;
      assert n.holders == {Slot(k)};
      assert forall i :: 0 <= i < slot.Length && i != k && slot[i] == n ==> Slot(i) in n.holders;
      assert forall m {:trigger m.prev} :: m in live && m.prev == n ==> From(m) in n.holders;
    }

    /** Give the node in slot k a new x, in place, when no other claim on it exists.  The slot in
        front keeps its path, and so does every other slot. */
    method Rewrite(k: nat, x: nat)
      requires Valid() && 0 < k < slot.Length && slot[k] != null && slot[k - 1] != null
      requires slot[k].refs == 1 && slot[k].prev == slot[k - 1]
      modifies this`paths, live
      ensures Valid() && paths == old(paths)[k := [x] + old(paths)[k - 1]]
    {
      hide Counted;
      hide FreeList;
      Basics();
      slot[k].x := x;
      slot[k].path := [x] + slot[k].prev.path;
      paths := paths[k := slot[k].path];
      NodeRewritten(k);
    }

    twostate lemma SlotShared()
      requires old(Inv()) && 0 <= old(open) < slot.Length && old(mine) == null && old(dying) == null
      requires live == old(live) && mine == null && dying == null && open == -1 && slot[..] == old(slot[..])
      requires var n := slot[old(open)];
        && (n != null ==> n in old(live))
        && paths == old(paths)[old(open) := if n == null then [] else n.path]
        && (forall m :: m in live && m != n ==> m.refs == old(m.refs) && m.holders == old(m.holders))
        && (n != null ==> n.refs == old(n.refs) + 1 && n.holders == old(n.holders) + {Slot(old(open))})
      requires forall m :: m in live ==> m.x == old(m.x) && m.prev == old(m.prev) && m.path == old(m.path)
      ensures Counted() && Pathed()
    {
      var n, k := slot[old(open)], old(open);
      assert forall i :: 0 <= i < slot.Length ==> slot[i] == slot[..][i] && slot[i] == old(slot[..][i]) == old(slot[i]);
      forall m, h | m in live && h in m.holders ensures Claims(m, h) {
        if h in old(m.holders) {
          assert old(Claims(m, h));
        }
      }
      if n != null {
        assert Slot(k) !in old(n.holders);
        assert n.refs == |n.holders|;
      }
    }

    /** Point the slot that was given up at the node of slot p; nothing is claimed yet. */
    method Point(k: nat, p: nat)
      requires Inv() && k == open < slot.Length && p < slot.Length && k != p
      modifies slot
      ensures Inv() && slot[k] == slot[p] && (slot[p] != null ==> slot[p] in live && slot[p].path == paths[p])
      ensures slot[p] == null ==> paths[p] == []
    {
      slot[k] := slot[p];
    }

    /** Count the claim of the slot that was given up on the node it now points at. */
    method Share(k: nat)
      requires Inv() && mine == null && dying == null && k == open < slot.Length &&
               (slot[k] != null ==> slot[k] in live)
      modifies this`paths, this`open, live
      ensures Valid() && paths == old(paths)[k := old(if slot[k] == null then [] else slot[k].path)]
    {
      hide Counted;
      hide Pathed;
      hide FreeList;
      Basics();
      var n := slot[k];
      if n != null {
        n.refs := n.refs + 1;
        n.holders := n.holders + {Slot(k)};
      }
      paths := paths[k := if n == null then [] else n.path];
      open := -1;
      SlotShared();
    }

    /** Make slot k share the node of slot p. */
    method Copy(k: nat, p: nat)
      requires Valid() && k < slot.Length && p < slot.Length && k != p
      modifies this, slot, live
      ensures Valid() && paths == old(paths)[k := old(paths)[p]] && nodes == old(nodes)
    {
      Release(k);
      Point(k, p);
      Share(k);
    }

    lemma SlotPaths()
      requires Valid()
      ensures live <= nodes && |paths| == slot.Length
      ensures forall i :: 0 <= i < slot.Length ==> (slot[i] == null <==> paths[i] == [])
      ensures forall i :: 0 <= i < slot.Length && slot[i] != null ==>
                slot[i] in live && slot[i].path == paths[i] && slot[i].x == paths[i][0]
    {
      forall i | 0 <= i < slot.Length && slot[i] != null
        ensures paths[i] != [] && slot[i].x == paths[i][0]
      {
        NodePath(slot[i]);
      }
    }

    lemma NodePath(n: Link)
      requires Valid() && n in live
      ensures n.path == [n.x] + (if n.prev == null then [] else n.prev.path)
      ensures n.prev != null ==> n.prev in live
    {
      assert n.prev != null ==> n.Extends(n.prev);
    }

    /** Following prev from live node m, d times, arrives at n. */
    ghost predicate Leads(m: Link, n: Link, d: nat)
      reads this`live, live
    {
      m in live && if d == 0 then m == n else m.prev != null && m.prev in live && Leads(m.prev, n, d - 1)
    }

    ghost predicate Reachable(n: Link)
      reads this`live, slot, live
    {
      exists i, d: nat :: 0 <= i < slot.Length && slot[i] != null && Leads(slot[i], n, d)
    }

    lemma {:induction false} LeadsFurther(m: Link, n: Link, d: nat)
      requires Leads(m, n, d) && n.prev != null && n.prev in live
      ensures Leads(m, n.prev, d + 1)
    {
      if d > 0 {
        LeadsFurther(m.prev, n, d - 1);
      }
    }

    ghost function LongerThan(len: nat): set<Link>
      reads this`live, live
    {
      set m | m in live && |m.path| > len
    }

    /** A claim is a slot, or a live node in front. */
    lemma Claimant(n: Link) returns (i: int, m: Link?)
      requires Valid() && n in live
      ensures m == null ==> 0 <= i < slot.Length && slot[i] == n
      ensures m != null ==> m in live && m.prev == n && |m.path| == |n.path| + 1
    {
      var h :| h in n.holders;
      assert Claims(n, h);
      i, m := -1, null;
      match h
      case Slot(k) => i := k;
      case From(f) => m := f; assert m.Extends(n);
    }

    lemma {:induction false} LiveIsReachable(n: Link)
      requires Valid() && n in live
      ensures Reachable(n)
      decreases LongerThan(|n.path|)
    {
      var i, m := Claimant(n);
      if m == null {
        assert Leads(slot[i], n, 0);
      } else {
        assert m in LongerThan(|n.path|) && m !in LongerThan(|m.path|);
        LiveIsReachable(m);
        var k, d: nat :| 0 <= k < slot.Length && slot[k] != null && Leads(slot[k], m, d);
        LeadsFurther(slot[k], m, d);
      }
    }

    lemma {:induction false} LeadsToLive(m: Link, n: Link, d: nat)
      requires Leads(m, n, d)
      ensures n in live
    {
      if d > 0 {
        LeadsToLive(m.prev, n, d - 1);
      }
    }

    /** The counting is exact: what the slots can reach is what is alive, and none of it is on
        the free list.  So nothing reachable is ever recycled and nothing unreachable is kept. */
    lemma ReclamationIsExact(n: Link)
      requires Valid()
      ensures Reachable(n) <==> n in live
      ensures Reachable(n) ==> n !in free && n.refs == |n.holders| && n.refs > 0
    {
      if n in live {
        LiveIsReachable(n);
      }
      if Reachable(n) {
        var i, d: nat :| 0 <= i < slot.Length && slot[i] != null && Leads(slot[i], n, d);
        LeadsToLive(slot[i], n, d);
      }
    }
  }
}
