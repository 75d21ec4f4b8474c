/** Hash tables keyed by addresses: chained nodes, a table whose size is a power of two and doubles
    when it gets full, and in-place rehashing. */
module PtrHash {
  import opened Basics

  type Address = a: nat | a < 0x1_0000_0000_0000_0000

  function PtrHashFun(ptr: Address): bv64 {
    var p := ptr as bv64;
    var q := p ^ (p >> 20) ^ (p >> 12);
    q ^ (q >> 7) ^ (q >> 4)
  }

  /** Chain number for an address. Masking with size - 1 is the remainder, as size is a power of two. */
  function Slot(ptr: Address, size: nat): (h: nat)
    requires size > 0
    ensures h < size
  {
    (PtrHashFun(ptr) as nat) % size
  }

  // ---- Table sizes ----

  /** Copies the highest set bit to all lower places. */
  function Smear(size: bv64): bv64 {
    var s1 := size | (size >> 1);
    var s2 := s1 | (s1 >> 2);
    var s3 := s2 | (s2 >> 4);
    var s4 := s3 | (s3 >> 8);
    var s5 := s4 | (s4 >> 16);
    s5 | (s5 >> 32)
  }

  function FindHashSize(size: bv64): bv64 {
    if size & (size - 1) != 0 then Smear(size) + 1 else size
  }

  predicate IsPower(x: bv64) {
    x & (x - 1) == 0
  }

  predicate LowOnes(r: bv64) {
    r & (r + 1) == 0
  }

  predicate Above(r: bv64, x: bv64) {
    x <= r
  }

  predicate HalfBelow(r: bv64, x: bv64) {
    r >> 1 < x
  }

  /** r is the least power of two that is not below x. */
  predicate LeastPower(x: bv64, r: bv64) {
    r != 0 && r & (r - 1) == 0 && x <= r && r >> 1 < x
  }

  lemma SmearIsOnes(x: bv64)
    ensures LowOnes(Smear(x))
  {
  }

  lemma SmearIsAbove(x: bv64)
    ensures Above(Smear(x), x)
  {
  }

  lemma SmearIsTight(x: bv64)
    requires x != 0
    ensures HalfBelow(Smear(x), x)
  {
  }

  lemma SmearProperties(x: bv64)
    requires x != 0
    ensures LowOnes(Smear(x)) && Above(Smear(x), x) && HalfBelow(Smear(x), x)
  {
    SmearIsOnes(x);
    SmearIsAbove(x);
    SmearIsTight(x);
  }

  /** A block of low ones that just covers x is one less than a power of two. */
  lemma OnesPlusOne(x: bv64, s: bv64)
    requires LowOnes(s) && Above(s, x) && HalfBelow(s, x) && !IsPower(x) && x <= 0x8000_0000_0000_0000
    ensures LeastPower(x, s + 1)
  {
  }

  lemma PowerIsLeast(x: bv64)
    requires IsPower(x) && x != 0
    ensures LeastPower(x, x)
  {
  }

  lemma HashSizeIs(x: bv64)
    ensures FindHashSize(x) == if IsPower(x) then x else Smear(x) + 1
  {
  }

  lemma SmearIsLeast(x: bv64)
    requires !IsPower(x) && x != 0 && x <= 0x8000_0000_0000_0000
    ensures LeastPower(x, Smear(x) + 1)
  {
    hide *;
    SmearProperties(x);
    OnesPlusOne(x, Smear(x));
  }

  /** The table size is the least power of two that is not below the size asked for. */
  lemma HashSizeRoundsUp(x: bv64)
    requires x != 0 && x <= 0x8000_0000_0000_0000
    ensures LeastPower(x, FindHashSize(x))
  {
    hide *;
    HashSizeIs(x);
    if IsPower(x) {
      PowerIsLeast(x);
    } else {
      SmearIsLeast(x);
    }
  }

  /** Above 2^63, where a word has no such power, it wraps around to zero. */
  lemma HashSizeWraps(x: bv64)
    requires x > 0x8000_0000_0000_0000
    ensures FindHashSize(x) == 0
  {
  }

  // ---- Nodes and chains ----

  class Node {
    var data: Address
    var next: Node?

    constructor (ptr: Address)
      ensures data == ptr
    {
      data := ptr;
      next := null;
    }
  }

  /** From p on the nodes of c, all of them in nodes, are linked, each to the following one. */
  ghost predicate Linked(p: Node?, c: seq<Node>, nodes: set<Node>)
    reads nodes`next
  {
    && (p == if c == [] then null else c[0])
    && (forall k :: 0 <= k < |c| ==> c[k] in nodes)
    && (forall k {:trigger c[k].next} :: 0 <= k < |c| ==> c[k].next == if k + 1 < |c| then c[k + 1] else null)
  }

  /** The nodes of chain h: their addresses belong there, and content knows them. */
  ghost predicate Holds(c: seq<Node>, h: nat, size: nat, content: map<Address, Node>)
    requires size > 0
    reads content.Values`data
  {
    && (forall k :: 0 <= k < |c| ==> c[k] in content.Values)
    && (forall k :: 0 <= k < |c| ==> Slot(c[k].data, size) == h)
    && (forall k :: 0 <= k < |c| ==> c[k].data in content && content[c[k].data] == c[k])
    && (forall k, l :: 0 <= k < l < |c| ==> c[k] != c[l])
  }

  /** A table of chains. */
  ghost predicate Chained(table: seq<Node?>, chains: seq<seq<Node>>, content: map<Address, Node>)
    reads content.Values
  {
    && |table| == |chains| > 0
    && (forall h :: 0 <= h < |chains| ==> Linked(table[h], chains[h], content.Values))
    && (forall h :: 0 <= h < |chains| ==> Holds(chains[h], h, |chains|, content))
  }

  /** Every node of the content is in the chain its address selects. */
  ghost predicate Complete(chains: seq<seq<Node>>, content: map<Address, Node>)
    requires |chains| > 0
    reads content.Values`data
  {
    forall a :: a in content ==>
      content[a] in content.Values && content[a].data == a && content[a] in chains[Slot(a, |chains|)]
  }

  // ---- Pushing a node ----

  lemma ValuesGrow(m: map<Address, Node>, a: Address, x: Node)
    requires a !in m
    ensures m[a := x].Values == m.Values + {x}
  {
    forall y | y in m.Values ensures y in m[a := x].Values {
      var b :| b in m && m[b] == y;
      assert m[a := x][b] == y;
    }
    assert m[a := x][a] == x;
  }

  lemma LinkedGrows(p: Node?, c: seq<Node>, nodes: set<Node>, more: set<Node>)
    requires Linked(p, c, nodes) && nodes <= more
    ensures Linked(p, c, more)
  {
  }

  lemma LinkedPush(p: Node, c: seq<Node>, nodes: set<Node>)
    requires p in nodes && Linked(p.next, c, nodes)
    ensures Linked(p, [p] + c, nodes)
  {
    var d := [p] + c;
    forall k {:trigger d[k].next} | 0 <= k < |d| ensures d[k].next == if k + 1 < |d| then d[k + 1] else null {
      if k > 0 {
        assert d[k] == c[k - 1] && c[k - 1].next == c[k - 1].next;
      }
    }
  }

  lemma HoldsPush(p: Node, c: seq<Node>, h: nat, size: nat, content: map<Address, Node>)
    requires size > 0 && Holds(c, h, size, content) && p !in content.Values && p.data !in content
    ensures Holds(c, h, size, content[p.data := p])
    ensures h == Slot(p.data, size) ==> Holds([p] + c, h, size, content[p.data := p])
  {
    hide Slot;
    ValuesGrow(content, p.data, p);
  }

  /** Puts a node at the front of the chain its address selects. */
  method Push(table: array<Node?>, p: Node, h: nat, ghost chains: seq<seq<Node>>, ghost content: map<Address, Node>)
    returns (ghost chains': seq<seq<Node>>)
    requires Chained(table[..], chains, content)
    requires p !in content.Values && p.data !in content && h == Slot(p.data, table.Length)
    modifies p`next, table
    ensures chains' == chains[h := [p] + chains[h]]
    ensures Chained(table[..], chains', content[p.data := p])
  {
    hide Slot, Linked, Holds;
    ghost var was := table[..];
    ghost var nodes := content.Values;
    ValuesGrow(content, p.data, p);
    p.next := table[h];
    table[h] := p;
    chains' := chains[h := [p] + chains[h]];
    forall g | 0 <= g < |chains| ensures Linked(table[..][g], chains'[g], content[p.data := p].Values) {
      assert Linked(was[g], chains[g], nodes);
      LinkedGrows(was[g], chains[g], nodes, nodes + {p});
      if g == h {
        LinkedPush(p, chains[g], nodes + {p});
      }
    }
    forall g | 0 <= g < |chains| ensures Holds(chains'[g], g, |chains|, content[p.data := p]) {
      HoldsPush(p, chains[g], g, |chains|, content);
    }
  }

  lemma CompletePush(chains: seq<seq<Node>>, content: map<Address, Node>, p: Node, h: nat)
    requires |chains| > 0 && Complete(chains, content) && p.data !in content && h == Slot(p.data, |chains|)
    ensures Complete(chains[h := [p] + chains[h]], content[p.data := p])
  {
    hide Slot;
    ValuesGrow(content, p.data, p);
  }

  // ---- Unlinking a node ----

  lemma ValuesShrink(m: map<Address, Node>, a: Address)
    requires a in m && forall b :: b in m && m[b] == m[a] ==> b == a
    ensures (m - {a}).Values == m.Values - {m[a]} && |m - {a}| == |m| - 1
  {
    var r := m - {a};
    forall y | y in m.Values - {m[a]} ensures y in r.Values {
      var b :| b in m && m[b] == y;
      assert r[b] == y;
    }
    assert m == r[a := m[a]];
    assert m.Keys == r.Keys + {a};
  }

  function Skip(c: seq<Node>, k: nat): seq<Node>
    requires k < |c|
  {
    c[..k] + c[k + 1..]
  }

  lemma HoldsSkip(c: seq<Node>, h: nat, size: nat, content: map<Address, Node>, a: Address, k: nat)
    requires size > 0 && Holds(c, h, size, content) && k < |c| && a in content && c[k] == content[a] && c[k].data == a
    requires (content - {a}).Values == content.Values - {content[a]}
    ensures Holds(Skip(c, k), h, size, content - {a})
  {
    hide Slot;
    var d := Skip(c, k);
    assert forall j :: 0 <= j < |d| ==> d[j] == c[if j < k then j else j + 1];
  }

  lemma HoldsOther(c: seq<Node>, g: nat, size: nat, content: map<Address, Node>, a: Address)
    requires size > 0 && Holds(c, g, size, content) && a in content && Slot(a, size) != g
    requires (content - {a}).Values == content.Values - {content[a]} && content[a] in content.Values &&
             content[a].data == a
    ensures Holds(c, g, size, content - {a}) && forall k :: 0 <= k < |c| ==> c[k] != content[a]
  {
    hide Slot;
  }

  ghost function NodesOf(c: seq<Node>): set<Node> {
    set x | x in c
  }

  lemma LinkedSkip(head: Node?, c: seq<Node>, k: nat, nodes: set<Node>)
    requires k < |c| && forall j :: 0 <= j < |c| && j != k ==> c[j] in nodes
    requires head == if k > 0 then c[0] else if |c| > 1 then c[1] else null
    requires forall j {:trigger c[j].next} :: 0 <= j < |c| && j != k && j + 1 != k ==>
               c[j].next == if j + 1 < |c| then c[j + 1] else null
    requires k > 0 ==> c[k - 1].next == if k + 1 < |c| then c[k + 1] else null
    ensures Linked(head, Skip(c, k), nodes)
  {
    var d := Skip(c, k);
    assert forall j :: 0 <= j < |d| ==> d[j] == c[if j < k then j else j + 1];
    forall j {:trigger d[j].next} | 0 <= j < |d| ensures d[j].next == if j + 1 < |d| then d[j + 1] else null {
      if j >= k {
        assert d[j] == c[j + 1];
      }
    }
  }

  /** What is needed of the chain a node is taken out of. */
  lemma ChainFacts(table: seq<Node?>, chains: seq<seq<Node>>, content: map<Address, Node>, h: nat, k: nat)
    requires Chained(table, chains, content) && Complete(chains, content) && h < |chains| && k < |chains[h]|
    ensures var a := chains[h][k].data;
      && a in content && content[a] == chains[h][k] && Slot(a, |chains|) == h
      && (content - {a}).Values == content.Values - {content[a]} && |content - {a}| == |content| - 1
    ensures forall g :: 0 <= g < |chains| && g != h ==> chains[h][k] !in chains[g]
    ensures forall g :: 0 <= g < |chains| ==> Linked(table[g], chains[g], NodesOf(chains[g]))
    ensures forall g :: 0 <= g < |chains| ==> NodesOf(chains[g]) <= content.Values
  {
    hide Slot;
    assert Holds(chains[h], h, |chains|, content);
    ValuesShrink(content, chains[h][k].data);
    forall g | 0 <= g < |chains|
      ensures Linked(table[g], chains[g], NodesOf(chains[g])) && NodesOf(chains[g]) <= content.Values
      ensures g != h ==> chains[h][k] !in chains[g]
    {
      assert Linked(table[g], chains[g], content.Values) && Holds(chains[g], g, |chains|, content);
    }
  }

  /** Makes the node in front of p, or the table slot, point behind p. */
  method Unlink(table: array<Node?>, h: nat, prev: Node?, p: Node, ghost k: nat, ghost c: seq<Node>)
    requires h < table.Length && k < |c| && c[k] == p && prev == if k == 0 then null else c[k - 1]
    requires Linked(table[h], c, NodesOf(c)) && forall i, j :: 0 <= i < j < |c| ==> c[i] != c[j]
    modifies table, if prev == null then {} else {prev}`next
    ensures Linked(table[h], Skip(c, k), NodesOf(c) - {p})
    ensures forall g :: 0 <= g < table.Length && g != h ==> table[g] == old(table[g])
  {
    hide Skip;
    assert c[k].next == if k + 1 < |c| then c[k + 1] else null;
    if prev == null {
      table[h] := p.next;
    } else {
      assert c[k - 1] == prev;
      prev.next := p.next;
    }
    LinkedSkip(table[h], c, k, NodesOf(c) - {p});
  }

  lemma CompleteSkip(chains: seq<seq<Node>>, content: map<Address, Node>, h: nat, k: nat, a: Address)
    requires |chains| > 0 && Complete(chains, content) && h < |chains| && k < |chains[h]|
    requires a in content && content[a] == chains[h][k] && Slot(a, |chains|) == h
    requires (content - {a}).Values == content.Values - {content[a]}
    ensures Complete(chains[h := Skip(chains[h], k)], content - {a})
  {
    hide Slot;
    var c := chains[h];
    var chains' := chains[h := Skip(c, k)];
    forall b | b in content - {a} ensures content[b] in chains'[Slot(b, |chains|)] {
      assert content[b] in chains[Slot(b, |chains|)];
      if Slot(b, |chains|) == h {
        var j :| 0 <= j < |c| && c[j] == content[b];
        assert Skip(c, k)[if j < k then j else j - 1] == c[j];
      }
    }
  }

  /** Takes node p, number k of chain h, out; prev is the node in front of it. */
  method Detach(table: array<Node?>, h: nat, prev: Node?, p: Node, ghost k: nat,
                ghost chains: seq<seq<Node>>, ghost content: map<Address, Node>)
    returns (ghost chains': seq<seq<Node>>)
    requires Chained(table[..], chains, content) && Complete(chains, content)
    requires h < |chains| && k < |chains[h]| && chains[h][k] == p
    requires prev == if k == 0 then null else chains[h][k - 1]
    modifies table, if prev == null then {} else {prev}`next
    ensures chains' == chains[h := Skip(chains[h], k)]
    ensures p.data in content && content[p.data] == p
    ensures (content - {p.data}).Values == content.Values - {p} && |content - {p.data}| == |content| - 1
    ensures Chained(table[..], chains', content - {p.data}) && Complete(chains', content - {p.data})
  {
    hide Slot, Holds, Linked, Skip, Complete;
    ChainFacts(table[..], chains, content, h, k);
    ghost var was, rest := table[..], (content - {p.data}).Values;
    ghost var c := chains[h];
    if k > 0 {
      ChainFacts(table[..], chains, content, h, k - 1);
    }
    HoldsDistinct(c, h, |chains|, content);
    assert Linked(was[h], c, NodesOf(c));
    Unlink(table, h, prev, p, k, c);
    chains' := chains[h := Skip(c, k)];
    CompleteSkip(chains, content, h, k, p.data);
    forall g | 0 <= g < |chains| ensures Linked(table[..][g], chains'[g], rest) {
      if g == h {
        LinkedGrows(table[h], chains'[h], NodesOf(c) - {p}, rest);
      } else {
        assert Linked(was[g], chains[g], NodesOf(chains[g]));
        LinkedGrows(was[g], chains[g], NodesOf(chains[g]), rest);
      }
    }
    forall g | 0 <= g < |chains| ensures Holds(chains'[g], g, |chains|, content - {p.data}) {
      if g == h {
        HoldsSkip(c, h, |chains|, content, p.data, k);
      } else {
        HoldsOther(chains[g], g, |chains|, content, p.data);
      }
    }
  }

  lemma HoldsDistinct(c: seq<Node>, h: nat, size: nat, content: map<Address, Node>)
    requires size > 0 && Holds(c, h, size, content)
    ensures forall i, j :: 0 <= i < j < |c| ==> c[i] != c[j]
  {
  }

  // ---- Rehashing ----

  /** content split into what is still in the old table and what is already in the new one. */
  ghost predicate Parts(content: map<Address, Node>, rest: map<Address, Node>, moved: map<Address, Node>) {
    && (forall a :: a in content <==> a in rest || a in moved)
    && (forall a :: a in rest ==> a !in moved && rest[a] == content[a])
    && (forall a :: a in moved ==> moved[a] == content[a])
  }

  lemma MoveOver(content: map<Address, Node>, rest: map<Address, Node>, moved: map<Address, Node>, a: Address, p: Node)
    requires Parts(content, rest, moved) && a in rest && rest[a] == p && p.data == a
    requires forall b :: b in moved ==> moved[b].data == b
    ensures Parts(content, rest - {a}, moved[a := p]) && p !in moved.Values && a !in moved && p in content.Values
  {
    assert content[a] == p;
  }

  lemma SomeChain(chains: seq<seq<Node>>, rest: map<Address, Node>, a: Address)
    requires |chains| > 0 && Complete(chains, rest) && a in rest
    ensures exists g :: 0 <= g < |chains| && chains[g] != []
  {
    hide Slot;
    assert chains[Slot(a, |chains|)] != [];
  }

  lemma NothingLeft(chains: seq<seq<Node>>, rest: map<Address, Node>, moved: map<Address, Node>,
                    content: map<Address, Node>)
    requires |chains| > 0 && Complete(chains, rest) && (forall g :: 0 <= g < |chains| ==> chains[g] == [])
    requires Parts(content, rest, moved)
    ensures moved == content
  {
    hide Slot, Complete;
    forall a ensures a in moved <==> a in content {
      if a in rest {
        SomeChain(chains, rest, a);
      }
    }
  }

  lemma DataOf(chains: seq<seq<Node>>, content: map<Address, Node>)
    requires |chains| > 0 && Complete(chains, content)
    ensures forall b :: b in content ==> content[b].data == b
  {
  }

  lemma HeadOf(table: seq<Node?>, chains: seq<seq<Node>>, content: map<Address, Node>, h: nat)
    requires Chained(table, chains, content) && h < |chains|
    ensures table[h] == if chains[h] == [] then null else chains[h][0]
    ensures forall k :: 0 <= k < |chains[h]| ==>
              chains[h][k] in content.Values && Slot(chains[h][k].data, |chains|) == h
  {
    assert Linked(table[h], chains[h], content.Values) && Holds(chains[h], h, |chains|, content);
    hide Slot;
  }

  /** Moves the first node of an old chain to the new table. */
  method MoveHead(oldTable: array<Node?>, e: nat, table: array<Node?>, p: Node, ghost oc: seq<seq<Node>>,
                  ghost chains: seq<seq<Node>>, ghost rest: map<Address, Node>, ghost moved: map<Address, Node>,
                  ghost content: map<Address, Node>)
    returns (ghost oc': seq<seq<Node>>, ghost chains': seq<seq<Node>>,
             ghost rest': map<Address, Node>, ghost moved': map<Address, Node>)
    requires oldTable != table && e < oldTable.Length && oldTable[e] == p
    requires Chained(oldTable[..], oc, rest) && Complete(oc, rest)
    requires Chained(table[..], chains, moved) && Complete(chains, moved)
    requires Parts(content, rest, moved)
    modifies oldTable, table, p`next
    ensures Chained(oldTable[..], oc', rest') && Complete(oc', rest')
    ensures Chained(table[..], chains', moved') && Complete(chains', moved')
    ensures Parts(content, rest', moved') && |rest'| < |rest|
    ensures |oc'| == |oc| && forall g :: 0 <= g < |oc| && g != e ==> oc'[g] == oc[g]
  {
    hide Slot, Holds, Linked, Complete, Parts;
    HeadOf(oldTable[..], oc, rest, e);
    ghost var a := p.data;
    oc' := Detach(oldTable, e, null, p, 0, oc, rest);
    DataOf(chains, moved);
    MoveOver(content, rest, moved, a, p);
    rest' := rest - {a};
    var h := Slot(p.data, table.Length);
    CompletePush(chains, moved, p, h);
    chains' := Push(table, p, h, chains, moved);
    moved' := moved[a := p];
  }

  lemma PartsValues(content: map<Address, Node>, rest: map<Address, Node>, moved: map<Address, Node>)
    requires Parts(content, rest, moved)
    ensures rest.Values <= content.Values
  {
    forall x | x in rest.Values ensures x in content.Values {
      var a :| a in rest && rest[a] == x;
      assert content[a] == x;
    }
  }

  /** Moves every node to a table twice the size. */
  method Rehash(oldTable: array<Node?>, ghost oldChains: seq<seq<Node>>, ghost content: map<Address, Node>)
    returns (table: array<Node?>, ghost chains: seq<seq<Node>>)
    requires Chained(oldTable[..], oldChains, content) && Complete(oldChains, content)
    modifies oldTable, content.Values`next
    ensures fresh(table) && table.Length == 2 * oldTable.Length
    ensures Chained(table[..], chains, content) && Complete(chains, content)
  {
    hide Slot, Holds, Linked, Complete, Parts;
    table := new Node?[2 * oldTable.Length](_ => null);
    chains := seq(2 * |oldChains|, _ => []);
    ghost var rest, moved: map<Address, Node> := content, map[];
    ghost var oc := oldChains;
    StartParts(table[..], chains, content);
    var e := oldTable.Length;
    while e > 0
      invariant 0 <= e <= oldTable.Length
      invariant Chained(oldTable[..], oc, rest) && Complete(oc, rest)
      invariant Chained(table[..], chains, moved) && Complete(chains, moved)
      invariant Parts(content, rest, moved)
      invariant forall g :: e <= g < |oc| ==> oc[g] == []
    {
      e := e - 1;
      while oldTable[e] != null
        invariant Chained(oldTable[..], oc, rest) && Complete(oc, rest)
        invariant Chained(table[..], chains, moved) && Complete(chains, moved)
        invariant Parts(content, rest, moved)
        invariant forall g :: e < g < |oc| ==> oc[g] == []
        decreases |rest|
      {
        HeadOf(oldTable[..], oc, rest, e);
        PartsValues(content, rest, moved);
        oc, chains, rest, moved := MoveHead(oldTable, e, table, oldTable[e], oc, chains, rest, moved, content);
      }
      HeadOf(oldTable[..], oc, rest, e);
    }
    NothingLeft(oc, rest, moved, content);
  }

  lemma StartParts(table: seq<Node?>, chains: seq<seq<Node>>, content: map<Address, Node>)
    requires |table| == |chains| > 0
    requires forall h :: 0 <= h < |chains| ==> chains[h] == [] && table[h] == null
    ensures Parts(content, content, map[])
    ensures Chained(table, chains, map[]) && Complete(chains, map[])
  {
    hide Slot;
  }

  // ---- The table ----

  class PtrHash {
    var table: array<Node?>
    var size: nat
    /** Number of nodes. */
    var num: nat
    /** The nodes of each chain in order, and the finite map the table stands for. */
    ghost var chains: seq<seq<Node>>
    ghost var content: map<Address, Node>

    ghost predicate Valid()
      reads this, table, content.Values
    {
      && Chained(table[..], chains, content)
      && Complete(chains, content)
      && num == |content| && size == table.Length
      && exists k :: table.Length == Pow2(k)
    }

    constructor (k: nat)
      ensures Valid() && content == map[] && table.Length == Pow2(k) && fresh(table)
    {
      table := new Node?[Pow2(k)](_ => null);
      size := Pow2(k);
      num := 0;
      chains := seq(Pow2(k), _ => []);
      content := map[];
      new;
      StartParts(table[..], chains, content);
    }

    /** The node of an address, or null. */
    method LowFind(ptr: Address, h: nat) returns (p: Node?)
      requires Valid() && h == Slot(ptr, table.Length)
      ensures p == if ptr in content then content[ptr] else null
    {
      hide Slot;
      ghost var c := chains[h];
      assert Linked(table[..][h], c, content.Values) && Holds(c, h, |chains|, content);
      p := table[h];
      ghost var k := 0;
      while p != null && p.data != ptr
        invariant 0 <= k <= |c| && p == if k < |c| then c[k] else null
        invariant forall j :: 0 <= j < k ==> c[j].data != ptr
        decreases |c| - k
      {
        p := p.next;
        k := k + 1;
      }
    }

    method Find(ptr: Address) returns (p: Node?)
      requires Valid()
      ensures p == if ptr in content then content[ptr] else null
    {
      p := LowFind(ptr, Slot(ptr, table.Length));
    }

    /** Doubles the table, if memory for the new one can be had. The size is doubled beforehand, and set back
        when there is none. */
    method Grow(memory: bool)
      requires Valid()
      modifies this`table, this`size, this`chains, table, content.Values`next
      ensures Valid() && (memory ==> fresh(table))
      ensures table.Length == if memory then 2 * old(table.Length) else old(table.Length)
      ensures !memory ==> unchanged(this, old(table)) && forall p :: p in content.Values ==> unchanged(p)
    {
      hide Slot, Holds, Linked, Complete, Pow2;
      ghost var k :| table.Length == Pow2(k);
      var oldHash, e := table, size;
      size := size * 2;
      if memory {
        var t;
        ghost var cs;
        t, cs := Rehash(oldHash, chains, content);
        Doubled(k);
        table, chains := t, cs;
      } else {
        table := oldHash;
        size := e;
      }
    }

    /** Puts a new node into the table. */
    method Add(ptr: Address) returns (p: Node)
      requires Valid() && ptr !in content
      modifies this`num, this`chains, this`content, table
      ensures Valid() && fresh(p) && p.data == ptr && content == old(content)[ptr := p] && num == old(num) + 1
    {
      hide Valid, Slot;
      HasChains();
      p := new Node(ptr);
      PushBack(p, Slot(ptr, table.Length));
    }

    /** When there would be four nodes for each chain, the table is doubled. */
    method MakeRoom(memory: bool)
      requires Valid()
      modifies this`table, this`size, this`chains, table, content.Values`next
      ensures Valid() && (table == old(table) || fresh(table)) && (!memory ==> table == old(table))
      ensures table.Length == if memory && (num + 1) / 4 >= old(table.Length) then 2 * old(table.Length)
                              else old(table.Length)
    {
      SizeIs();
      hide Valid, Pow2;
      if (num + 1) / 4 >= size {
        Grow(memory);
      }
    }

    /** Makes a node for an address that has none; before that the table is doubled if it gets too full. */
    method Make(ptr: Address, memory: bool) returns (p: Node)
      requires Valid() && ptr !in content
      modifies this, table, content.Values`next
      ensures Valid() && fresh(p) && p.data == ptr && content == old(content)[ptr := p]
      ensures memory && old(num) / 4 < old(table.Length) ==> num / 4 < table.Length
      ensures table.Length == if memory && (old(num) + 1) / 4 >= old(table.Length) then 2 * old(table.Length)
                              else old(table.Length)
      ensures !memory ==> table == old(table)
    {
      hide Valid;
      MakeRoom(memory);
      p := Add(ptr);
    }

    lemma SizeIs()
      requires Valid()
      ensures size == table.Length
    {
    }

    /** The node of an address, made if there is none. */
    method Get(ptr: Address, memory: bool) returns (p: Node)
      requires Valid()
      modifies this, table, content.Values`next
      ensures Valid() && p.data == ptr
      ensures content == if ptr in old(content) then old(content) else old(content)[ptr := p]
      ensures ptr in content && content[ptr] == p
      ensures ptr in old(content) ==> table == old(table) && num == old(num)
    {
      var q := Find(ptr);
      if q == null {
        p := Make(ptr, memory);
      } else {
        DataOf(chains, content);
        p := q;
      }
    }

    /** Finds a node in its chain, with the node in front of it. */
    method Locate(h: nat, ptr: Address) returns (prev: Node?, p: Node?, ghost k: nat)
      requires Valid() && h == Slot(ptr, table.Length)
      ensures p == if ptr in content then content[ptr] else null
      ensures p != null ==> h < |chains| == table.Length && k < |chains[h]| && chains[h][k] == p && p.data == ptr
                            && prev == if k == 0 then null else chains[h][k - 1]
    {
      hide Slot;
      ghost var c := chains[h];
      assert Linked(table[..][h], c, content.Values) && Holds(c, h, |chains|, content);
      p, prev, k := table[h], null, 0;
      while p != null && p.data != ptr
        invariant 0 <= k <= |c| && p == if k < |c| then c[k] else null
        invariant prev == if k == 0 then null else c[k - 1]
        invariant forall j :: 0 <= j < k ==> c[j].data != ptr
        decreases |c| - k
      {
        prev := p;
        p := p.next;
        k := k + 1;
      }
    }

    /** Finds the place of a node in its chain. */
    method LocateNode(h: nat, block: Node) returns (prev: Node?, ghost k: nat)
      requires Valid() && block in content.Values && h == Slot(block.data, table.Length)
      ensures h < |chains| == table.Length && k < |chains[h]| && chains[h][k] == block
      ensures prev == if k == 0 then null else chains[h][k - 1]
    {
      hide Slot;
      ghost var c := chains[h];
      OwnAddress(chains, content, block);
      assert Linked(table[..][h], c, content.Values) && block in c;
      var p := table[h];
      prev, k := null, 0;
      while p != null && p != block
        invariant 0 <= k <= |c| && p == if k < |c| then c[k] else null
        invariant prev == if k == 0 then null else c[k - 1]
        invariant forall j :: 0 <= j < k ==> c[j] != block
        decreases |c| - k
      {
        prev := p;
        p := p.next;
        k := k + 1;
      }
    }

    lemma HasChains()
      requires Valid()
      ensures table.Length == |chains| > 0
    {
    }

    /** Takes a node out of its chain. */
    method Drop(h: nat, prev: Node?, p: Node, ghost k: nat)
      requires Valid() && h < table.Length && k < |chains[h]| && chains[h][k] == p
      requires prev == if k == 0 then null else chains[h][k - 1]
      modifies this`num, this`chains, this`content, table, content.Values`next
      ensures Valid() && p.data in old(content) && old(content)[p.data] == p && content == old(content) - {p.data}
      ensures p !in content.Values && num == old(num) - 1
    {
      hide Slot, Holds, Linked, Complete;
      PrevInside(table[..], chains, content, h, k);
      ghost var cs := Detach(table, h, prev, p, k, chains, content);
      ghost var narrower := content - {p.data};
      assert Chained(table[..], cs, narrower);
      num, chains, content := num - 1, cs, narrower;
    }

    /** Removes the node of an address, if there is one. */
    method Remove(ptr: Address) returns (found: bool)
      requires Valid()
      modifies this`num, this`chains, this`content, table, content.Values`next
      ensures Valid() && table == old(table)
      ensures found <==> ptr in old(content)
      ensures content == old(content) - {ptr}
    {
      hide Valid, Slot;
      HasChains();
      var h := Slot(ptr, table.Length);
      var prev, p;
      ghost var k;
      prev, p, k := Locate(h, ptr);
      if p == null {
        assert content - {ptr} == content;
        return false;
      }
      Drop(h, prev, p, k);
      found := true;
    }

    /** Gives a node another address, which has no node yet. */
    method Relocate(block: Node, ptr: Address)
      requires Valid() && block in content.Values && ptr !in content
      modifies this`num, this`chains, this`content, table, content.Values
      ensures Valid() && table == old(table) && block.data == ptr
      ensures content == (old(content) - {old(block.data)})[ptr := block]
    {
      hide Valid, Slot;
      HasChains();
      var h := Slot(block.data, table.Length);
      var prev;
      ghost var k;
      prev, k := LocateNode(h, block);
      Drop(h, prev, block, k);
      HasChains();
      Rename(block, ptr);
      h := Slot(ptr, table.Length);
      PushBack(block, h);
    }

    /** Changes the address of a node that is in no chain. */
    method Rename(block: Node, ptr: Address)
      requires Valid() && block !in content.Values
      modifies block`data
      ensures Valid() && block.data == ptr
    {
      hide Slot, Holds, Linked, Complete, Pow2;
      block.data := ptr;
    }

    /** Puts a node that is in no chain into the table. */
    method PushBack(block: Node, h: nat)
      requires Valid() && block !in content.Values && block.data !in content && h == Slot(block.data, table.Length)
      modifies this`num, this`chains, this`content, table, block`next
      ensures Valid() && content == old(content)[block.data := block] && num == old(num) + 1
    {
      hide Slot, Holds, Linked, Complete, Pow2;
      CompletePush(chains, content, block, h);
      ghost var wider := content[block.data := block];
      ghost var cs := Push(table, block, h, chains, content);
      assert Chained(table[..], cs, wider);
      num, chains, content := num + 1, cs, wider;
    }
  }

  lemma OwnAddress(chains: seq<seq<Node>>, content: map<Address, Node>, x: Node)
    requires |chains| > 0 && Complete(chains, content) && x in content.Values
    ensures x.data in content && content[x.data] == x
  {
  }

  lemma Doubled(k: nat)
    ensures Pow2(k + 1) == 2 * Pow2(k)
  {
  }

  lemma PrevInside(table: seq<Node?>, chains: seq<seq<Node>>, content: map<Address, Node>, h: nat, k: nat)
    requires Chained(table, chains, content) && h < |chains| && k < |chains[h]|
    ensures k > 0 ==> chains[h][k - 1] in content.Values
    ensures chains[h][k] in content.Values
  {
    assert Holds(chains[h], h, |chains|, content);
  }
}
