/** Switch statements: collecting the case labels, the checks for overlapping ranges, the reordered
    jump table, and the lookup made when the statement runs. */
module Switch {
  import opened Values

  // ---- What a switch says ----

  /** A case label of the source text with the code label emitted for it: one value, a closed
      range, or a range open at one end. */
  datatype Item =
    | Case(v: Value, lbl: int)
    | Range(lo: Value, hi: Value, lbl: int)
    | UpTo(hi: Value, lbl: int)
    | From(lo: Value, lbl: int)

  ghost predicate Contains(it: Item, x: Value) {
    match it
    case Case(v, _) => x == v
    case Range(lo, hi, _) => !Before(x, lo) && !Before(hi, x)
    case UpTo(hi, _) => !Before(hi, x)
    case From(lo, _) => !Before(x, lo)
  }

  /** Every item has a label of its own, none of them the default. */
  ghost predicate Labelled(items: seq<Item>, dflt: int) {
    && 0 <= dflt
    && (forall i :: 0 <= i < |items| ==> items[i].lbl >= 0 && items[i].lbl != dflt)
    && (forall i, j :: 0 <= i < j < |items| ==> items[i].lbl != items[j].lbl)
  }

  /** Where value x has to go: to every item that contains it, and to the default if none does. */
  ghost predicate Chooses(items: seq<Item>, dflt: int, x: Value, t: int) {
    && (forall i :: 0 <= i < |items| && Contains(items[i], x) ==> t == items[i].lbl)
    && ((forall i :: 0 <= i < |items| ==> !Contains(items[i], x)) ==> t == dflt)
  }

  ghost predicate Disjoint(items: seq<Item>) {
    forall i, j, x :: 0 <= i < j < |items| ==> !(Contains(items[i], x) && Contains(items[j], x))
  }

  /** Ranges the right way round, and at most one open end in each direction. */
  ghost predicate Tame(items: seq<Item>) {
    && (forall i :: 0 <= i < |items| && items[i].Range? ==> Before(items[i].lo, items[i].hi))
    && (forall i, j :: 0 <= i < j < |items| ==> !(items[i].UpTo? && items[j].UpTo?))
    && (forall i, j :: 0 <= i < j < |items| ==> !(items[i].From? && items[j].From?))
  }

  // ---- Slots ----

  /** One entry of the case table: the value, the label for equal values, the label for the values
      between this one and the next (-1 for the default), and the item it comes from. */
  datatype Slot = Slot(v: Value, lbl: int, gap: int, owner: nat)

  function ItemSlots(it: Item, i: nat): seq<Slot> {
    match it
    case Case(v, l) => [Slot(v, l, -1, i)]
    case Range(lo, hi, l) => [Slot(lo, l, l, i), Slot(hi, l, -1, i)]
    case UpTo(hi, l) => [Slot(hi, l, -1, i)]
    case From(lo, l) => [Slot(lo, l, -1, i)]
  }

  function Slots(items: seq<Item>): seq<Slot> {
    if items == [] then []
    else Slots(items[..|items| - 1]) + ItemSlots(items[|items| - 1], |items| - 1)
  }

  function Vals(slots: seq<Slot>): (r: seq<Value>)
    ensures |r| == |slots| && forall k :: 0 <= k < |r| ==> r[k] == slots[k].v
  {
    seq(|slots|, k requires 0 <= k < |slots| => slots[k].v)
  }

  function LessLabel(items: seq<Item>): int {
    if items == [] then -1
    else if items[|items| - 1].UpTo? then items[|items| - 1].lbl
    else LessLabel(items[..|items| - 1])
  }

  function GreaterLabel(items: seq<Item>): int {
    if items == [] then -1
    else if items[|items| - 1].From? then items[|items| - 1].lbl
    else GreaterLabel(items[..|items| - 1])
  }

  ghost predicate Distinct(v: seq<Value>) {
    forall i, j :: 0 <= i < j < |v| ==> v[i] != v[j]
  }

  /** Slot k is the low end of a closed range, as its labels and those of the next slot tell. */
  predicate IsStart(slots: seq<Slot>, k: nat) {
    k + 1 < |slots| && slots[k].lbl == slots[k].gap && slots[k].lbl == slots[k + 1].lbl
  }

  /** Slot k comes from an item as ItemSlots says. */
  ghost predicate FromItem(items: seq<Item>, slots: seq<Slot>, k: nat)
    requires k < |slots|
  {
    var s := slots[k];
    && s.owner < |items|
    && (var it := items[s.owner];
        && s.lbl == it.lbl
        && (it.Case? ==> s == Slot(it.v, it.lbl, -1, s.owner))
        && (it.UpTo? ==> s == Slot(it.hi, it.lbl, -1, s.owner))
        && (it.From? ==> s == Slot(it.lo, it.lbl, -1, s.owner))
        && (it.Range? ==>
              || (k + 1 < |slots| && s == Slot(it.lo, it.lbl, it.lbl, s.owner)
                  && slots[k + 1] == Slot(it.hi, it.lbl, -1, s.owner))
              || (k > 0 && s == Slot(it.hi, it.lbl, -1, s.owner)
                  && slots[k - 1] == Slot(it.lo, it.lbl, it.lbl, s.owner))))
  }

  /** Slot k is the first one of item i. */
  ghost predicate FirstSlot(items: seq<Item>, slots: seq<Slot>, i: nat, k: nat)
    requires i < |items|
  {
    && k < |slots| && slots[k].owner == i
    && slots[k].v == (match items[i] case Case(v, _) => v case Range(lo, _, _) => lo
                                     case UpTo(hi, _) => hi case From(lo, _) => lo)
    && (items[i].Range? ==> k + 1 < |slots| && slots[k] == Slot(items[i].lo, items[i].lbl, items[i].lbl, i)
                            && slots[k + 1] == Slot(items[i].hi, items[i].lbl, -1, i))
  }

  lemma {:induction false} SlotOrigin(items: seq<Item>)
    ensures forall k :: 0 <= k < |Slots(items)| ==> FromItem(items, Slots(items), k)
  {
    if items != [] {
      var before := items[..|items| - 1];
      SlotOrigin(before);
      forall k | 0 <= k < |Slots(items)| ensures FromItem(items, Slots(items), k) {
        if k < |Slots(before)| {
          assert FromItem(before, Slots(before), k);
        }
      }
    }
  }

  lemma {:induction false} ItemHasSlot(items: seq<Item>, i: nat) returns (k: nat)
    requires i < |items|
    ensures FirstSlot(items, Slots(items), i, k)
  {
    var before := items[..|items| - 1];
    if i == |items| - 1 {
      k := |Slots(before)|;
    } else {
      k := ItemHasSlot(before, i);
    }
  }

  lemma {:induction false} OpenEnds(items: seq<Item>)
    ensures LessLabel(items) == -1 || exists i :: 0 <= i < |items| && items[i].UpTo? && items[i].lbl == LessLabel(items)
    ensures GreaterLabel(items) == -1 ||
              exists i :: 0 <= i < |items| && items[i].From? && items[i].lbl == GreaterLabel(items)
    ensures (exists i :: 0 <= i < |items| && items[i].UpTo?) ==>
              exists i :: 0 <= i < |items| && items[i].UpTo? && items[i].lbl == LessLabel(items)
    ensures (exists i :: 0 <= i < |items| && items[i].From?) ==>
              exists i :: 0 <= i < |items| && items[i].From? && items[i].lbl == GreaterLabel(items)
  {
    if items != [] {
      var before := items[..|items| - 1];
      var last := items[|items| - 1];
      OpenEnds(before);
      assert last == items[|items| - 1];
      assert forall i :: 0 <= i < |before| ==> before[i] == items[i];
    }
  }

  // ---- The checks and the table ----

  ghost predicate EndsFit(items: seq<Item>, slots: seq<Slot>, order: seq<nat>)
    requires |order| == |slots| && forall e :: 0 <= e < |order| ==> order[e] < |slots|
  {
    |slots| > 0 ==>
      && (LessLabel(items) >= 0 ==> slots[order[0]].lbl == LessLabel(items))
      && (GreaterLabel(items) >= 0 ==> slots[order[|order| - 1]].lbl == GreaterLabel(items))
  }

  ghost predicate RangesClosed(slots: seq<Slot>, order: seq<nat>, n: nat)
    requires |order| == |slots| && forall e :: 0 <= e < |order| ==> order[e] < |slots|
  {
    forall e :: 0 <= e < n && e < |order| - 1 && IsStart(slots, order[e]) ==> order[e + 1] == order[e] + 1
  }

  /** The switch compiles: no duplicate case values and no "Case inside range." */
  ghost predicate Accepted(items: seq<Item>) {
    var slots := Slots(items);
    && Distinct(Vals(slots))
    && (var order := GetOrder(Vals(slots));
        OrderIsOrder(Vals(slots));
        EndsFit(items, slots, order) && RangesClosed(slots, order, |order|))
  }

  /** The slots in the order of their values. */
  function Sorted(items: seq<Item>): (r: seq<Slot>)
    ensures |r| == |Slots(items)|
  {
    var slots := Slots(items);
    var order := GetOrder(Vals(slots));
    seq(|slots|, e requires 0 <= e < |slots| => (OrderIsOrder(Vals(slots)); slots[order[e]]))
  }

  function Or(l: int, dflt: int): int {
    if l == -1 then dflt else l
  }

  /** Pointer number j after the switch instruction: first one for the values below all cases, then
      for each case one for the equal value and one for the values up to the next case. */
  function Pointer(p: seq<Slot>, less: int, greater: int, dflt: int, j: nat): int
    requires j < 2 * |p| + 1
  {
    if j % 2 == 1 then p[j / 2].lbl
    else if j == 2 * |p| then Or(greater, dflt)
    else if j == 0 then Or(less, dflt)
    else Or(p[j / 2 - 1].gap, dflt)
  }

  function Jumps(items: seq<Item>, dflt: int): (r: seq<int>)
    ensures |r| == 2 * |Slots(items)| + 1
  {
    var p := Sorted(items);
    seq(2 * |p| + 1, j requires 0 <= j < 2 * |p| + 1 => Pointer(p, LessLabel(items), GreaterLabel(items), dflt, j))
  }

  /** The constant the switch instruction refers to: the sorted case values, or, when no gap leads
      anywhere but to the default, a mapping from case value to index. */
  datatype Table = Searched(values: seq<Value>, types: TypeField) | Mapped(index: map<Value, nat>)

  datatype Compiled = Compiled(table: Table, jumps: seq<int>)

  ghost predicate IsCompiled(items: seq<Item>, dflt: int, c: Compiled) {
    var vs := Vals(Sorted(items));
    && c.jumps == Jumps(items, dflt)
    && (c.table == Searched(vs, TypesOf(vs))
        || (&& c.table.Mapped?
            && (forall p :: 0 <= p <= |vs| ==> c.jumps[2 * p] == dflt)
            && (forall x :: x in c.table.index ==> c.table.index[x] < |vs| && vs[c.table.index[x]] == x)
            && (forall e :: 0 <= e < |vs| ==> vs[e] in c.table.index)))
  }

  /** Value x makes the compiled switch jump to label t. */
  ghost predicate Lands(c: Compiled, x: Value, t: int) {
    match c.table
    case Searched(vs, types) =>
      && |c.jumps| == 2 * |vs| + 1
      && if Skips(types, Tag(x)) then t == c.jumps[2 * |vs|]
         else ((exists e :: 0 <= e < |vs| && vs[e] == x && t == c.jumps[1 + 2 * e])
               || (exists p :: 0 <= p <= |vs| && Belongs(vs, x, p) && t == c.jumps[2 * p]))
    case Mapped(m) =>
      && (x in m ==> 1 + 2 * m[x] < |c.jumps| && t == c.jumps[1 + 2 * m[x]])
      && (x !in m ==> 0 < |c.jumps| && t == c.jumps[0])
  }

  /** The jump of the switch instruction. */
  method Dispatch(c: Compiled, x: Value) returns (t: int)
    requires c.table.Searched? ==> |c.jumps| == 2 * |c.table.values| + 1 && Ascends(c.table.values)
                                   && Covers(c.table.types, c.table.values)
    requires c.table.Mapped? ==> |c.jumps| > 0 && forall y :: y in c.table.index ==>
             1 + 2 * c.table.index[y] < |c.jumps|
    ensures Lands(c, x, t)
  {
    var tmp: int;
    match c.table {
      case Searched(vs, types) => tmp := TypedLookup(vs, types, x);
      case Mapped(m) => tmp := if x in m then m[x] else -1;
    }
    t := if tmp >= 0 then c.jumps[1 + tmp * 2] else c.jumps[2 * (-tmp - 1)];
  }

  // ---- Meaning ----

  lemma SortedAscends(items: seq<Item>)
    requires Distinct(Vals(Slots(items)))
    ensures Ascends(Vals(Sorted(items)))
  {
    var vs := Vals(Slots(items));
    OrderIsOrder(vs);
  }

  lemma CasesAscend(items: seq<Item>)
    requires Accepted(items)
    ensures Ascends(Vals(Sorted(items)))
  {
    SortedAscends(items);
  }

  lemma PointerAt(p: seq<Slot>, less: int, greater: int, dflt: int, e: nat)
    requires e <= |p|
    ensures e < |p| ==> Pointer(p, less, greater, dflt, 1 + 2 * e) == p[e].lbl
    ensures Pointer(p, less, greater, dflt, 2 * e) ==
            Or(if e == |p| then greater else if e == 0 then less else p[e - 1].gap, dflt)
  {
    assert (2 * e) % 2 == 0 && (2 * e) / 2 == e && (1 + 2 * e) % 2 == 1 && (1 + 2 * e) / 2 == e;
  }

  lemma JumpsAt(items: seq<Item>, dflt: int, e: nat)
    requires e <= |Sorted(items)|
    ensures e < |Sorted(items)| ==> Jumps(items, dflt)[1 + 2 * e] == Sorted(items)[e].lbl
    ensures Jumps(items, dflt)[2 * e] ==
            Or(if e == |Sorted(items)| then GreaterLabel(items) else if e == 0 then LessLabel(items)
               else Sorted(items)[e - 1].gap, dflt)
  {
    hide Sorted, Slots, LessLabel, GreaterLabel, Pointer, Or;
    PointerAt(Sorted(items), LessLabel(items), GreaterLabel(items), dflt, e);
  }

  /** Sorted position e holds a slot of its owner, and its owner has no other slot with that value. */
  lemma OwnerOf(items: seq<Item>, e: nat)
    requires e < |Sorted(items)|
    ensures var order := GetOrder(Vals(Slots(items)));
      |order| == |Slots(items)| && order[e] < |order| && Sorted(items)[e] == Slots(items)[order[e]]
    ensures FromItem(items, Slots(items), GetOrder(Vals(Slots(items)))[e])
  {
    OrderIsOrder(Vals(Slots(items)));
    SlotOrigin(items);
  }

  /** Sorted position of a slot. */
  lemma PlaceOf(items: seq<Item>, k: nat) returns (e: nat)
    requires k < |Slots(items)|
    ensures var order := GetOrder(Vals(Slots(items)));
      |order| == |Slots(items)| && e < |order| && order[e] == k && Sorted(items)[e] == Slots(items)[k]
  {
    var vs := Vals(Slots(items));
    OrderIsOrder(vs);
    assert k in GetOrder(vs);
    e :| 0 <= e < |vs| && GetOrder(vs)[e] == k;
  }

  /** In an accepted switch the two ends of a closed range are neighbours, unless the low end is
      the greatest value of all. */
  lemma RangeEnds(items: seq<Item>, i: nat) returns (f: nat)
    requires Accepted(items) && i < |items|
    ensures f < |Sorted(items)| && Sorted(items)[f].owner == i
    ensures items[i].Case? ==> Sorted(items)[f].v == items[i].v
    ensures items[i].UpTo? ==> Sorted(items)[f].v == items[i].hi
    ensures items[i].From? ==> Sorted(items)[f].v == items[i].lo
    ensures items[i].Range? ==> Sorted(items)[f] == Slot(items[i].lo, items[i].lbl, items[i].lbl, i)
    ensures items[i].Range? ==> if f + 1 < |Sorted(items)|
                                then Sorted(items)[f + 1] == Slot(items[i].hi, items[i].lbl, -1, i)
                                else Before(items[i].hi, items[i].lo)
  {
    var slots := Slots(items);
    var k := ItemHasSlot(items, i);
    f := PlaceOf(items, k);
    if items[i].Range? {
      assert IsStart(slots, k);
      if f + 1 < |slots| {
        OwnerOf(items, f + 1);
      } else {
        var g := PlaceOf(items, k + 1);
        SortedAscends(items);
        assert Vals(Sorted(items))[g] == items[i].hi && Vals(Sorted(items))[f] == items[i].lo;
      }
    }
  }

  /** A value strictly inside a closed range lies between the two ends in the sorted table. */
  lemma InsideRange(items: seq<Item>, i: nat, x: Value) returns (f: nat)
    requires Accepted(items) && i < |items| && items[i].Range? && Before(items[i].lo, items[i].hi)
    requires Before(items[i].lo, x) && Before(x, items[i].hi)
    ensures f + 1 < |Sorted(items)|
    ensures Sorted(items)[f] == Slot(items[i].lo, items[i].lbl, items[i].lbl, i)
    ensures Sorted(items)[f + 1] == Slot(items[i].hi, items[i].lbl, -1, i)
    ensures forall e :: 0 <= e <= f ==> Before(Vals(Sorted(items))[e], x)
    ensures forall e :: f < e < |Sorted(items)| ==> Before(x, Vals(Sorted(items))[e])
  {
    f := RangeEnds(items, i);
    Trichotomy(items[i].lo, items[i].hi);
    SortedAscends(items);
    var vs := Vals(Sorted(items));
    forall e | 0 <= e <= f ensures Before(vs[e], x) {
      if e < f {
        BeforeTrans(vs[e], vs[f], x);
      }
    }
    forall e | f < e < |vs| ensures Before(x, vs[e]) {
      if e > f + 1 {
        BeforeTrans(x, vs[f + 1], vs[e]);
      }
    }
  }

  /** The item with an open lower end owns the smallest value, the one with an open upper end the
      greatest. */
  lemma OpenEndIsOutermost(items: seq<Item>, i: nat)
    requires Accepted(items) && Tame(items) && i < |items| && items[i].lbl >= 0
    ensures items[i].UpTo? ==> LessLabel(items) == items[i].lbl && |Sorted(items)| > 0
                               && Sorted(items)[0].lbl == items[i].lbl
    ensures items[i].From? ==> GreaterLabel(items) == items[i].lbl && |Sorted(items)| > 0
                               && Sorted(items)[|Sorted(items)| - 1].lbl == items[i].lbl
  {
    OpenEnds(items);
    var f := RangeEnds(items, i);
    OwnerOf(items, 0);
    OwnerOf(items, |Sorted(items)| - 1);
  }

  /** No case value lies strictly inside a closed range. */
  lemma NoCaseInside(items: seq<Item>, i: nat, e: nat)
    requires Accepted(items) && i < |items| && items[i].Range? && Before(items[i].lo, items[i].hi)
    requires e < |Sorted(items)|
    ensures !(Before(items[i].lo, Sorted(items)[e].v) && Before(Sorted(items)[e].v, items[i].hi))
  {
    var x := Vals(Sorted(items))[e];
    Trichotomy(x, x);
    if Before(items[i].lo, x) && Before(x, items[i].hi) {
      var g := InsideRange(items, i, x);
    }
  }

  /** A case value belongs to the item it was written for and to no other. */
  lemma RightAtValue(items: seq<Item>, dflt: int, e: nat)
    requires Labelled(items, dflt) && Accepted(items) && Tame(items) && e < |Sorted(items)|
    ensures Chooses(items, dflt, Sorted(items)[e].v, Sorted(items)[e].lbl)
    ensures Sorted(items)[e].owner < |items| && Contains(items[Sorted(items)[e].owner], Sorted(items)[e].v)
  {
    hide Accepted, GetOrder, Slots, Sorted;
    var p := Sorted(items);
    var vs := Vals(p);
    var x := p[e].v;
    OwnerOf(items, e);
    CasesAscend(items);
    var o := p[e].owner;
    Trichotomy(x, x);
    assert Contains(items[o], x) by {
      if items[o].Range? {
        Trichotomy(items[o].lo, items[o].hi);
      }
    }
    forall i | 0 <= i < |items| && Contains(items[i], x) ensures i == o {
      var f := RangeEnds(items, i);
      Trichotomy(x, vs[f]);
      OpenEndIsOutermost(items, i);
      if items[i].UpTo? {
        OwnerOf(items, 0);
      } else if items[i].From? {
        OwnerOf(items, |p| - 1);
      } else if items[i].Range? {
        NoCaseInside(items, i, e);
        Trichotomy(x, items[i].lo);
        Trichotomy(x, items[i].hi);
      }
    }
  }

  /** A value above all cases belongs to the item open at its upper end, and to no other. */
  lemma RightAbove(items: seq<Item>, x: Value, i: nat)
    requires Accepted(items) && Tame(items) && i < |items| && items[i].lbl >= 0
    requires Belongs(Vals(Sorted(items)), x, |Sorted(items)|)
    ensures Contains(items[i], x) <==> items[i].From?
  {
    var f := RangeEnds(items, i);
    var vs := Vals(Sorted(items));
    Trichotomy(vs[f], x);
    if items[i].Range? {
      Trichotomy(items[i].lo, items[i].hi);
      Trichotomy(vs[f + 1], x);
    }
  }

  /** A value below all cases belongs to the item open at its lower end, and to no other. */
  lemma RightBelow(items: seq<Item>, x: Value, i: nat)
    requires Accepted(items) && Tame(items) && i < |items| && items[i].lbl >= 0
    requires Belongs(Vals(Sorted(items)), x, 0)
    ensures Contains(items[i], x) <==> items[i].UpTo?
  {
    var f := RangeEnds(items, i);
    var vs := Vals(Sorted(items));
    Trichotomy(vs[f], x);
  }

  /** A value between two cases belongs to the closed range that starts at the lower one. */
  lemma RightInside(items: seq<Item>, x: Value, p: nat, i: nat)
    requires Accepted(items) && Tame(items) && i < |items| && items[i].lbl >= 0
    requires forall a, b :: 0 <= a < b < |items| ==> items[a].lbl != items[b].lbl
    requires 0 < p < |Sorted(items)| && Belongs(Vals(Sorted(items)), x, p)
    ensures Contains(items[i], x) <==>
              items[i].Range? && Sorted(items)[p - 1] == Slot(items[i].lo, items[i].lbl, items[i].lbl, i)
  {
    var s := Sorted(items);
    var vs := Vals(s);
    var f := RangeEnds(items, i);
    SortedAscends(items);
    Trichotomy(vs[f], x);
    OpenEndIsOutermost(items, i);
    match items[i]
    case Case(_, _) =>
    case UpTo(_, _) => OpenEndPosition(items, i, f);
    case From(_, _) => OpenEndPosition(items, i, f);
    case Range(lo, hi, _) =>
      Trichotomy(lo, hi);
      assert vs[f + 1] == hi;
      Trichotomy(hi, x);
      if Contains(items[i], x) {
        var g := InsideRange(items, i, x);
        assert !(g < p - 1) by { Trichotomy(vs[p - 1], x); }
        assert !(g > p - 1) by { Trichotomy(vs[p], x); }
      }
      Trichotomy(vs[p - 1], vs[f]);
  }

  /** An open item has one slot, the outermost one. */
  lemma OpenEndPosition(items: seq<Item>, i: nat, f: nat)
    requires Accepted(items) && Tame(items) && i < |items| && items[i].lbl >= 0
    requires f < |Sorted(items)| && Sorted(items)[f].owner == i
    requires forall a, b :: 0 <= a < b < |items| ==> items[a].lbl != items[b].lbl
    ensures items[i].UpTo? ==> f == 0
    ensures items[i].From? ==> f == |Sorted(items)| - 1
  {
    var vs := Vals(Sorted(items));
    SortedAscends(items);
    OpenEndIsOutermost(items, i);
    OwnerOf(items, f);
    OwnerOf(items, 0);
    OwnerOf(items, |vs| - 1);
    Trichotomy(vs[f], vs[0]);
    Trichotomy(vs[f], vs[|vs| - 1]);
  }

  lemma AboveChooses(items: seq<Item>, dflt: int, x: Value)
    requires Labelled(items, dflt) && Accepted(items) && Tame(items)
    requires Belongs(Vals(Sorted(items)), x, |Sorted(items)|)
    ensures Chooses(items, dflt, x, Or(GreaterLabel(items), dflt))
  {
    hide Accepted, GetOrder, Slots, Sorted, Contains, Tame;
    OpenEnds(items);
    forall i | 0 <= i < |items|
      ensures Contains(items[i], x) <==> items[i].From?
      ensures items[i].From? ==> items[i].lbl == GreaterLabel(items)
    {
      RightAbove(items, x, i);
      OpenEndIsOutermost(items, i);
    }
  }

  lemma BelowChooses(items: seq<Item>, dflt: int, x: Value)
    requires Labelled(items, dflt) && Accepted(items) && Tame(items)
    requires Belongs(Vals(Sorted(items)), x, 0)
    ensures Chooses(items, dflt, x, Or(LessLabel(items), dflt))
  {
    hide Accepted, GetOrder, Slots, Sorted, Contains, Tame;
    OpenEnds(items);
    forall i | 0 <= i < |items|
      ensures Contains(items[i], x) <==> items[i].UpTo?
      ensures items[i].UpTo? ==> items[i].lbl == LessLabel(items)
    {
      RightBelow(items, x, i);
      OpenEndIsOutermost(items, i);
    }
  }

  lemma GapChooses(items: seq<Item>, dflt: int, x: Value, p: nat)
    requires Labelled(items, dflt) && Accepted(items) && Tame(items)
    requires 0 < p < |Sorted(items)| && Belongs(Vals(Sorted(items)), x, p)
    ensures Chooses(items, dflt, x, Or(Sorted(items)[p - 1].gap, dflt))
  {
    hide Accepted, GetOrder, Slots, Sorted, Contains, Tame, Belongs;
    var s := Sorted(items)[p - 1];
    OwnerOf(items, p - 1);
    forall i | 0 <= i < |items|
      ensures Contains(items[i], x) <==> items[i].Range? && s == Slot(items[i].lo, items[i].lbl, items[i].lbl, i)
    {
      RightInside(items, x, p, i);
    }
    if s.gap != -1 {
      assert Contains(items[s.owner], x);
    }
  }

  /** A value that is no case goes to the range that spans it, or else to the default. */
  lemma RightBetween(items: seq<Item>, dflt: int, x: Value, p: nat)
    requires Labelled(items, dflt) && Accepted(items) && Tame(items)
    requires p <= |Sorted(items)| && Belongs(Vals(Sorted(items)), x, p)
    ensures Chooses(items, dflt, x, Jumps(items, dflt)[2 * p])
  {
    hide Accepted, GetOrder, Slots, Sorted, Contains, Tame, Belongs, Jumps, Chooses, Labelled;
    JumpsAt(items, dflt, p);
    if p == |Sorted(items)| {
      AboveChooses(items, dflt, x);
    } else if p == 0 {
      BelowChooses(items, dflt, x);
    } else {
      GapChooses(items, dflt, x, p);
    }
  }

  /** Every value is a case or has a place between the cases. */
  lemma HasPlace(v: seq<Value>, x: Value) returns (p: nat)
    requires Ascends(v)
    ensures p <= |v| && (Belongs(v, x, p) || (p < |v| && v[p] == x))
  {
    p := 0;
    while p < |v| && Before(v[p], x)
      invariant p <= |v| && forall k :: 0 <= k < p ==> Before(v[k], x)
    {
      p := p + 1;
    }
    if p < |v| {
      Trichotomy(v[p], x);
      if v[p] != x {
        forall k | p <= k < |v| ensures Before(x, v[k]) {
          if k > p {
            BeforeTrans(x, v[p], v[k]);
          }
        }
      }
    }
  }

  function SearchedForm(items: seq<Item>, c: Compiled): Compiled {
    var vs := Vals(Sorted(items));
    Compiled(Searched(vs, TypesOf(vs)), c.jumps)
  }

  /** The types of the case values make the search for type g be skipped, and a case label asks for more
      than the default above them or across the place of type g. */
  ghost predicate Misleads(items: seq<Item>, g: nat) {
    && Misplaces(TypesOf(Vals(Slots(items))), g)
    && exists i :: 0 <= i < |items| && (items[i].From? || (items[i].Range? && Tag(items[i].lo) < g < Tag(items[i].hi)))
  }

  lemma SameTypes(items: seq<Item>)
    ensures TypesOf(Vals(Sorted(items))) == TypesOf(Vals(Slots(items)))
  {
    var vs, ws := Vals(Sorted(items)), Vals(Slots(items));
    forall e | 0 <= e < |vs| ensures Tag(vs[e]) in TypesOf(ws) {
      OwnerOf(items, e);
      assert vs[e] == ws[GetOrder(ws)[e]];
    }
    forall k | 0 <= k < |ws| ensures Tag(ws[k]) in TypesOf(vs) {
      var e := PlaceOf(items, k);
      assert vs[e] == ws[k];
    }
  }

  /** The mapping form goes where the search would have gone. */
  lemma MappingAgrees(items: seq<Item>, dflt: int, c: Compiled, x: Value, t: int)
    requires Accepted(items) && IsCompiled(items, dflt, c)
    ensures Lands(c, x, t) <==> Lands(SearchedForm(items, c), x, t)
  {
    hide Accepted, GetOrder, Slots, Sorted, Jumps, Skips, TypesOf;
    var vs := Vals(Sorted(items));
    CasesAscend(items);
    if c.table.Mapped? {
      var p := HasPlace(vs, x);
      var m := c.table.index;
      if x in vs {
        assert x in m && vs[m[x]] == x;
        CaseNotSkipped(vs, m[x]);
        forall e | 0 <= e < |vs| && vs[e] == x ensures e == m[x] {
          Trichotomy(vs[e], vs[m[x]]);
        }
        forall q | 0 <= q <= |vs| ensures !Belongs(vs, x, q) {
          Trichotomy(vs[m[x]], x);
        }
      } else {
        assert x !in m;
        assert Belongs(vs, x, p) && c.jumps[2 * p] == dflt;
        assert c.jumps[2 * 0] == dflt && c.jumps[2 * |vs|] == dflt;
      }
    }
  }

  /** The search for a case value is never skipped. */
  lemma CaseNotSkipped(vs: seq<Value>, e: nat)
    requires e < |vs|
    ensures !Skips(TypesOf(vs), Tag(vs[e]))
  {
    MixedBits(0);
    MixedBits(Tag(vs[e]));
    assert Tag(vs[e]) in TypesOf(vs);
  }

  /** Where no range spans the place of type g, the pointer there is the default. */
  lemma NoGapAcross(items: seq<Item>, g: nat, p: nat)
    requires Accepted(items) && Tame(items) && 0 < p < |Sorted(items)|
    requires Tag(Sorted(items)[p - 1].v) < g < Tag(Sorted(items)[p].v)
    requires forall i :: 0 <= i < |items| && items[i].Range? ==> !(Tag(items[i].lo) < g < Tag(items[i].hi))
    ensures Sorted(items)[p - 1].gap == -1
  {
    hide Accepted, GetOrder, Slots, Sorted;
    var s := Sorted(items);
    var vs := Vals(s);
    if s[p - 1].gap != -1 {
      OwnerOf(items, p - 1);
      var f := RangeEnds(items, s[p - 1].owner);
      CasesAscend(items);
      Trichotomy(vs[f], vs[p - 1]);
    }
  }

  /** A skipped value has its place between two cases, with the default there and above all cases. */
  lemma SkippedToDefault(items: seq<Item>, dflt: int, x: Value, p: nat)
    requires Labelled(items, dflt) && Accepted(items) && Tame(items) && !Misleads(items, Tag(x))
    requires Misplaces(TypesOf(Vals(Sorted(items))), Tag(x))
    requires p <= |Sorted(items)| && Belongs(Vals(Sorted(items)), x, p)
    ensures Jumps(items, dflt)[2 * p] == Jumps(items, dflt)[2 * |Sorted(items)|] == dflt
  {
    hide Accepted, GetOrder, Slots, Jumps, Sorted, Tame;
    var s := Sorted(items);
    var vs, g := Vals(s), Tag(x);
    SameTypes(items);
    OpenEnds(items);
    JumpsAt(items, dflt, p);
    JumpsAt(items, dflt, |s|);
    var lower :| 0 <= lower < |vs| && Tag(vs[lower]) < g;
    var upper :| 0 <= upper < |vs| && Tag(vs[upper]) == g + 7;
    assert lower < p <= upper && Tag(vs[p - 1]) in TypesOf(vs) && Tag(vs[p]) in TypesOf(vs);
    NoGapAcross(items, g, p);
  }

  /** The compiled form of an accepted, tame switch sends every value where the source says, except when
      its types mislead the lookup. */
  lemma TameSwitchIsRight(items: seq<Item>, dflt: int, c: Compiled, x: Value, t: int)
    requires Labelled(items, dflt) && Accepted(items) && Tame(items) && !Misleads(items, Tag(x))
    requires IsCompiled(items, dflt, c) && Lands(c, x, t)
    ensures Chooses(items, dflt, x, t)
  {
    MappingAgrees(items, dflt, c, x, t);
    CasesAscend(items);
    hide Accepted, GetOrder, Slots, Sorted, Chooses, Tame, Labelled, Belongs, Jumps, Misleads, Misplaces, Skips,
         TypesOf;
    var vs := Vals(Sorted(items));
    var types := TypesOf(vs);
    if Skips(types, Tag(x)) {
      SkipsWrongly(vs, x);
      var p := |vs|;
      if Misplaces(types, Tag(x)) {
        p := HasPlace(vs, x);
        if !Belongs(vs, x, p) {
          CaseNotSkipped(vs, p);
        }
        SkippedToDefault(items, dflt, x, p);
      }
      RightBetween(items, dflt, x, p);
    } else if e :| 0 <= e < |vs| && vs[e] == x && t == c.jumps[1 + 2 * e] {
      JumpsAt(items, dflt, e);
      RightAtValue(items, dflt, e);
    } else {
      var p :| 0 <= p <= |vs| && Belongs(vs, x, p) && t == c.jumps[2 * p];
      RightBetween(items, dflt, x, p);
    }
  }

  /** A case value jumps to the label of its slot. */
  lemma ValueLands(items: seq<Item>, dflt: int, c: Compiled, e: nat)
    requires Accepted(items) && IsCompiled(items, dflt, c) && e < |Sorted(items)|
    ensures Lands(c, Sorted(items)[e].v, Sorted(items)[e].lbl)
  {
    hide Accepted, GetOrder, Slots, Sorted, Jumps;
    JumpsAt(items, dflt, e);
    var vs := Vals(Sorted(items));
    assert c.jumps[1 + 2 * e] == Sorted(items)[e].lbl;
    assert vs[e] == Sorted(items)[e].v;
    CaseNotSkipped(vs, e);
    MappingAgrees(items, dflt, c, vs[e], Sorted(items)[e].lbl);
  }

  /** A range written the wrong way round is accepted when its low end is the greatest case; that
      value then runs the range's statements although the range is empty. */
  lemma InvertedRangeGoesWrong(items: seq<Item>, dflt: int, c: Compiled, i: nat)
    requires Labelled(items, dflt) && Accepted(items) && IsCompiled(items, dflt, c)
    requires i < |items| && items[i].Range? && !Before(items[i].lo, items[i].hi)
    ensures Lands(c, items[i].lo, items[i].lbl) && !Chooses(items, dflt, items[i].lo, items[i].lbl)
  {
    var f := RangeEnds(items, i);
    ValueLands(items, dflt, c, f);
    var k := ItemHasSlot(items, i);
    assert Vals(Slots(items))[k] != Vals(Slots(items))[k + 1];
    Trichotomy(items[i].lo, items[i].hi);
  }

  /** Of two items open at the same end the outermost case value can satisfy only one. */
  lemma TwoOpenEndsGoWrong(items: seq<Item>, dflt: int, c: Compiled, i: nat, j: nat) returns (e: nat)
    requires Labelled(items, dflt) && Accepted(items) && IsCompiled(items, dflt, c)
    requires i < j < |items|
    requires (items[i].UpTo? && items[j].UpTo?) || (items[i].From? && items[j].From?)
    ensures e < |Sorted(items)| && Lands(c, Sorted(items)[e].v, Sorted(items)[e].lbl)
    ensures !Chooses(items, dflt, Sorted(items)[e].v, Sorted(items)[e].lbl)
  {
    var f := RangeEnds(items, i);
    var g := RangeEnds(items, j);
    var vs := Vals(Sorted(items));
    SortedAscends(items);
    e := if items[i].UpTo? then 0 else |vs| - 1;
    ValueLands(items, dflt, c, e);
    Trichotomy(vs[e], vs[f]);
    Trichotomy(vs[e], vs[g]);
    assert Contains(items[i], vs[e]) && Contains(items[j], vs[e]);
  }

  /** What lies above the place of type g has type g + 7, the lower end of an open range too. */
  lemma OpenAboveMisled(items: seq<Item>, x: Value, i: nat)
    requires Accepted(items) && Tame(items) && i < |items| && items[i].From? && items[i].lbl >= 0
    requires forall a, b :: 0 <= a < b < |items| ==> items[a].lbl != items[b].lbl
    requires Misplaces(TypesOf(Vals(Sorted(items))), Tag(x))
    ensures !Contains(items[i], x) && items[i].lbl == GreaterLabel(items)
  {
    hide Slots, GetOrder, Accepted;
    var vs := Vals(Sorted(items));
    CasesAscend(items);
    var f := RangeEnds(items, i);
    OpenEndIsOutermost(items, i);
    OpenEndPosition(items, i, f);
    var upper :| 0 <= upper < |vs| && Tag(vs[upper]) == Tag(x) + 7;
    assert vs[f] == items[i].lo && (f == upper || Before(vs[upper], vs[f]));
  }

  /** A misled lookup sends every value of type g above all cases, where it does not belong. */
  lemma MisledGoesWrong(items: seq<Item>, dflt: int, c: Compiled, x: Value) returns (t: int)
    requires Labelled(items, dflt) && Accepted(items) && Tame(items) && IsCompiled(items, dflt, c)
    requires Misleads(items, Tag(x))
    ensures t == Or(GreaterLabel(items), dflt) && Lands(c, x, t) && !Chooses(items, dflt, x, t)
  {
    hide Accepted, GetOrder, Slots, Jumps, Skips, Sorted, TypesOf;
    var vs := Vals(Sorted(items));
    CasesAscend(items);
    SameTypes(items);
    SkipsWrongly(vs, x);
    t := c.jumps[2 * |vs|];
    JumpsAt(items, dflt, |vs|);
    MappingAgrees(items, dflt, c, x, t);
    OpenEnds(items);
    var i :| 0 <= i < |items| && (items[i].From? || (items[i].Range? && Tag(items[i].lo) < Tag(x) < Tag(items[i].hi)));
    if items[i].From? {
      hide Tame, Misplaces;
      OpenAboveMisled(items, x, i);
    } else {
      assert Contains(items[i], x);
    }
  }

  /** An accepted switch runs as written on every value exactly when it is tame and its types do not
      mislead the lookup of floats and arrays. */
  lemma RightExactlyWhenTame(items: seq<Item>, dflt: int, c: Compiled)
    requires Labelled(items, dflt) && Accepted(items) && IsCompiled(items, dflt, c)
    ensures Tame(items) && !Misleads(items, 1) && !Misleads(items, 8)
      <==> forall x, t :: Lands(c, x, t) ==> Chooses(items, dflt, x, t)
  {
    hide Accepted, GetOrder, Slots, Sorted, IsCompiled, Lands, Chooses;
    if !Tame(items) {
      if i :| 0 <= i < |items| && items[i].Range? && !Before(items[i].lo, items[i].hi) {
        InvertedRangeGoesWrong(items, dflt, c, i);
      } else {
        var i, j :| 0 <= i < j < |items| && ((items[i].UpTo? && items[j].UpTo?) || (items[i].From? && items[j].From?));
        var e := TwoOpenEndsGoWrong(items, dflt, c, i, j);
      }
    } else if Misleads(items, 1) {
      var t := MisledGoesWrong(items, dflt, c, FloatVal(0.0));
    } else if Misleads(items, 8) {
      var t := MisledGoesWrong(items, dflt, c, ArrayVal(0));
    } else {
      forall x, t | Lands(c, x, t) ensures Chooses(items, dflt, x, t) {
        assert Misleads(items, Tag(x)) ==> Tag(x) == 1 || Tag(x) == 8;
        TameSwitchIsRight(items, dflt, c, x, t);
      }
    }
  }

  // ---- The checks reject overlaps and nothing else ----

  /** An item contains the values of its own slots. */
  lemma OwnValue(items: seq<Item>, k: nat)
    requires Tame(items) && k < |Slots(items)|
    ensures Slots(items)[k].owner < |items| && Contains(items[Slots(items)[k].owner], Slots(items)[k].v)
    ensures Slots(items)[k].lbl == items[Slots(items)[k].owner].lbl
  {
    SlotOrigin(items);
    assert FromItem(items, Slots(items), k);
    var x := Slots(items)[k].v;
    var it := items[Slots(items)[k].owner];
    Trichotomy(x, x);
    if it.Range? {
      Trichotomy(it.lo, it.hi);
    }
  }

  /** Two slots of one item are the two ends of a closed range. */
  lemma {:induction false} SameOwner(items: seq<Item>, k: nat, l: nat)
    requires Tame(items) && k < l < |Slots(items)| && Slots(items)[k].owner == Slots(items)[l].owner
    ensures l == k + 1 && Before(Slots(items)[k].v, Slots(items)[l].v)
  {
    var before := items[..|items| - 1];
    var n := |Slots(before)|;
    SlotOrigin(before);
    if l < n {
      SameOwner(before, k, l);
    } else {
      assert k < n ==> FromItem(before, Slots(before), k);
      assert Slots(items)[l] == ItemSlots(items[|items| - 1], |items| - 1)[l - n];
    }
  }

  /** Slots with equal values would make two items overlap. */
  lemma DisjointIsDistinct(items: seq<Item>)
    requires Tame(items) && Disjoint(items)
    ensures Distinct(Vals(Slots(items)))
  {
    var vs := Vals(Slots(items));
    forall k, l | 0 <= k < l < |vs| ensures vs[k] != vs[l] {
      OwnValue(items, k);
      OwnValue(items, l);
      Trichotomy(vs[k], vs[l]);
      if Slots(items)[k].owner == Slots(items)[l].owner {
        SameOwner(items, k, l);
      }
    }
  }

  lemma DisjointEndsFit(items: seq<Item>)
    requires Tame(items) && Disjoint(items) && |Slots(items)| > 0
    ensures LessLabel(items) >= 0 ==> Sorted(items)[0].lbl == LessLabel(items)
    ensures GreaterLabel(items) >= 0 ==> Sorted(items)[|Slots(items)| - 1].lbl == GreaterLabel(items)
  {
    var order := GetOrder(Vals(Slots(items)));
    var vs := Vals(Sorted(items));
    DisjointIsDistinct(items);
    SortedAscends(items);
    OpenEnds(items);
    OrderIsOrder(Vals(Slots(items)));
    forall i, e | 0 <= i < |items| && (e == 0 || e == |vs| - 1) && Contains(items[i], vs[e])
      ensures Sorted(items)[e].lbl == items[i].lbl
    {
      OwnValue(items, order[e]);
    }
    forall i | 0 <= i < |items|
      ensures items[i].UpTo? ==> Contains(items[i], vs[0])
      ensures items[i].From? ==> Contains(items[i], vs[|vs| - 1])
    {
      var k := ItemHasSlot(items, i);
      var f := PlaceOf(items, k);
      Trichotomy(vs[0], vs[f]);
      Trichotomy(vs[f], vs[|vs| - 1]);
    }
  }

  lemma DisjointRangeCloses(items: seq<Item>, e: nat)
    requires Tame(items) && Disjoint(items) && e + 1 < |Sorted(items)|
    requires forall i :: 0 <= i < |items| ==> items[i].lbl >= 0
    ensures var order := GetOrder(Vals(Slots(items)));
      |order| == |Slots(items)| && (IsStart(Slots(items), order[e]) ==> order[e + 1] == order[e] + 1)
  {
    var slots := Slots(items);
    var order := GetOrder(Vals(slots));
    OwnerOf(items, e);
    OwnerOf(items, e + 1);
    var k, l := order[e], order[e + 1];
    if IsStart(slots, k) {
      var vs := Vals(Sorted(items));
      DisjointIsDistinct(items);
      SortedAscends(items);
      var f := PlaceOf(items, k + 1);
      assert slots[k + 1].owner == slots[k].owner;
      SameOwner(items, k, k + 1);
      Trichotomy(vs[e], vs[f]);
      Trichotomy(vs[e + 1], vs[f]);
      Trichotomy(vs[e], vs[e + 1]);
      OwnValue(items, l);
      assert Contains(items[slots[k].owner], vs[e + 1]);
      if l < k {
        SameOwner(items, l, k);
      } else if l > k {
        SameOwner(items, k, l);
      }
    }
  }

  /** With ranges the right way round and at most one open end each way, a switch is accepted
      exactly when no value belongs to two items. */
  lemma AcceptedExactlyWhenDisjoint(items: seq<Item>, dflt: int)
    requires Labelled(items, dflt) && Tame(items)
    ensures Accepted(items) <==> Disjoint(items)
  {
    var vs := Vals(Sorted(items));
    if Disjoint(items) {
      DisjointIsDistinct(items);
      OrderIsOrder(Vals(Slots(items)));
      if |Slots(items)| > 0 {
        DisjointEndsFit(items);
      }
      forall e | 0 <= e < |vs| - 1
        ensures IsStart(Slots(items), GetOrder(Vals(Slots(items)))[e]) ==>
                  GetOrder(Vals(Slots(items)))[e + 1] == GetOrder(Vals(Slots(items)))[e] + 1
      {
        DisjointRangeCloses(items, e);
      }
    }
    if Accepted(items) {
      CasesAscend(items);
      forall i, j, x | 0 <= i < j < |items| ensures !(Contains(items[i], x) && Contains(items[j], x)) {
        var p := HasPlace(vs, x);
        if p < |vs| && vs[p] == x {
          RightAtValue(items, dflt, p);
        } else {
          RightBetween(items, dflt, x, p);
        }
      }
    }
  }

  /** The order of two different values. */
  lemma OrderOfTwo(v: seq<Value>)
    requires |v| == 2 && v[0] != v[1]
    ensures GetOrder(v) == if Before(v[1], v[0]) then [1, 0] else [0, 1]
  {
    OrderIsOrder(v);
    var order := GetOrder(v);
    Trichotomy(v[0], v[1]);
    Trichotomy(v[0], v[0]);
    Trichotomy(v[1], v[1]);
    hide GetOrder, Before;
    assert Sooner(v, order[0], order[1]);
  }

  /** "case 10..5:" alone is accepted, and 10 runs its statements. */
  lemma InvertedRangeExample()
    ensures var items := [Range(IntVal(10), IntVal(5), 1)];
      Accepted(items) && !Tame(items)
  {
    hide GetOrder;
    var items := [Range(IntVal(10), IntVal(5), 1)];
    assert items[..0] == [];
    var slots := [Slot(IntVal(10), 1, 1, 0), Slot(IntVal(5), 1, -1, 0)];
    assert Slots(items) == slots;
    OrderOfTwo(Vals(slots));
    assert LessLabel(items) == -1 && GreaterLabel(items) == -1;
    hide Slots, LessLabel, GreaterLabel;
    OrderIsOrder(Vals(slots));
    assert EndsFit(items, slots, [1, 0]) && RangesClosed(slots, [1, 0], 2);
  }

  /** "case ..9:" followed by "case ..5:" is accepted, and 7 goes to the default. */
  lemma TwoOpenEndsExample(c: Compiled)
    ensures var items := [UpTo(IntVal(9), 1), UpTo(IntVal(5), 2)];
      Accepted(items) && !Tame(items)
      && (IsCompiled(items, 3, c) ==> Lands(c, IntVal(7), 3))
      && Contains(items[0], IntVal(7))
  {
    hide GetOrder;
    var items := [UpTo(IntVal(9), 1), UpTo(IntVal(5), 2)];
    assert items[..1] == [UpTo(IntVal(9), 1)] && items[..1][..0] == [];
    var vs := Vals(Slots(items));
    var slots := [Slot(IntVal(9), 1, -1, 0), Slot(IntVal(5), 2, -1, 1)];
    assert Slots(items) == slots;
    OrderOfTwo(vs);
    OrderIsOrder(vs);
    assert LessLabel(items) == 2 && GreaterLabel(items[..1][..0]) == -1 && GreaterLabel(items) == -1;
    assert EndsFit(items, slots, [1, 0]) && RangesClosed(slots, [1, 0], 2);
    var s := Sorted(items);
    if IsCompiled(items, 3, c) {
      JumpsAt(items, 3, 1);
      assert Belongs(Vals(s), IntVal(7), 1);
      MappingAgrees(items, 3, c, IntVal(7), 3);
    }
  }

  lemma SlotsOfTwo(v: Value, w: Value)
    ensures var items := [Case(v, 1), From(w, 2)];
      && Slots(items) == [Slot(v, 1, -1, 0), Slot(w, 2, -1, 1)] && LessLabel(items) == -1 && GreaterLabel(items) == 2
  {
    var items := [Case(v, 1), From(w, 2)];
    assert items[..1] == [Case(v, 1)] && items[..1][..0] == [];
    assert Slots(items[..1]) == Slots(items[..1][..0]) + [Slot(v, 1, -1, 0)] == [Slot(v, 1, -1, 0)];
    assert LessLabel(items) == LessLabel(items[..1]) == LessLabel(items[..1][..0]);
  }

  /** "case 0:" and "case A..:" for an array A: every float runs the statements of the range, although all
      floats come before all arrays. */
  lemma MisledExample(a: nat, x: real, c: Compiled)
    requires IsCompiled([Case(IntVal(0), 1), From(ArrayVal(a), 2)], 3, c)
    ensures var items := [Case(IntVal(0), 1), From(ArrayVal(a), 2)];
      && Accepted(items) && Tame(items)
      && Lands(c, FloatVal(x), 2) && Chooses(items, 3, FloatVal(x), 3)
  {
    var items := [Case(IntVal(0), 1), From(ArrayVal(a), 2)];
    SlotsOfTwo(IntVal(0), ArrayVal(a));
    hide GetOrder, Slots, LessLabel, GreaterLabel, Jumps, Sorted;
    var slots := Slots(items);
    var vs := Vals(slots);
    OrderIsOrder(vs);
    OrderOfTwo(vs);
    assert EndsFit(items, slots, [0, 1]) && RangesClosed(slots, [0, 1], 2);
    assert Accepted(items);
    assert vs[0] == IntVal(0) && vs[1] == ArrayVal(a);
    assert 0 in TypesOf(vs) && 8 in TypesOf(vs);
    assert items[1].From?;
    assert Misleads(items, 1);
    hide Accepted, Misleads, IsCompiled, Lands;
    var t := MisledGoesWrong(items, 3, c, FloatVal(x));
  }
}
