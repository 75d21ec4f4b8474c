/** The compiler's side of a switch statement: the case table grows as the labels are met, and is
    checked, sorted and closed when the whole body has been compiled. */
module SwitchCompiler {
  import opened Values
  import opened Switch

  /** Table entry j, counted from the first pointer, before the defaults are filled in. */
  function Raw(p: seq<Slot>, less: int, greater: int, j: nat): int
    requires j < 2 * |p| + 1
  {
    if j % 2 == 1 then p[j / 2].lbl
    else if j == 2 * |p| then greater
    else if j == 0 then less
    else p[j / 2 - 1].gap
  }

  class SwitchData {
    const jumptable: array<int>
    var index: nat
    var lessLabel: int
    var greaterLabel: int
    var defaultLabel: int
    var values: seq<Value>
    var errors: bool
    /** The case labels met so far. */
    ghost var items: seq<Item>

    ghost predicate Filled(slots: seq<Slot>)
      reads jumptable
    {
      && 2 + 2 * |slots| <= jumptable.Length
      && (forall k :: 0 <= k < |slots| ==> jumptable[2 + 2 * k] == slots[k].lbl)
      && (forall k :: 0 <= k < |slots| ==> jumptable[3 + 2 * k] == slots[k].gap)
    }

    /** The values vs have been pushed; a repeated one has been reported. */
    ghost predicate Pushed(vs: seq<Value>)
      reads this`values, this`errors
    {
      && |values| == |vs|
      && (errors <==> !Distinct(vs))
      && (!errors ==> values == vs)
    }

    ghost predicate Valid()
      reads this, jumptable
    {
      && index == 2 + 2 * |Slots(items)|
      && Filled(Slots(items))
      && Pushed(Vals(Slots(items)))
      && lessLabel == LessLabel(items) && greaterLabel == GreaterLabel(items)
    }

    constructor (cases: nat)
      ensures Valid() && items == [] && fresh(jumptable) && jumptable.Length == 2 * cases + 2
      ensures defaultLabel == -1 && !errors
    {
      jumptable := new int[2 * cases + 2](_ => -1);
      index := 2;
      lessLabel, greaterLabel, defaultLabel := -1, -1, -1;
      values, errors, items := [], false, [];
    }

    /** Pushes a case value and compares it with every earlier one. After an error the value is no
        longer computed. */
    method PushValue(v: Value, ghost vs: seq<Value>)
      requires Pushed(vs)
      modifies this`values, this`errors
      ensures Pushed(vs + [v])
    {
      DistinctGrows(vs, v);
      if errors {
        values := values + [IntVal(0)];
      } else {
        values := values + [v];
        var n := |values|;
        while n > 1
          invariant 1 <= n <= |values| && values == vs + [v]
          invariant errors <==> v in vs[..|vs| + 1 - n]
        {
          assert vs[..|vs| + 2 - n] == vs[..|vs| + 1 - n] + [vs[|vs| + 1 - n]];
          if values[|values| - n] == v {
            errors := true;
          }
          n := n - 1;
        }
        assert vs[..|vs|] == vs;
      }
    }

    /** The two table entries of one slot. */
    method AddEntries(l: int, gap: int, ghost slots: seq<Slot>, ghost s: Slot)
      requires Filled(slots) && index == 2 + 2 * |slots| && index + 2 <= jumptable.Length
      requires s.lbl == l && s.gap == gap
      modifies this`index, jumptable
      ensures Filled(slots + [s]) && index == old(index) + 2
    {
      jumptable[index] := l;
      index := index + 1;
      jumptable[index] := gap;
      index := index + 1;
    }

    /** A case label with the code label emitted for it. */
    method AddCase(it: Item)
      requires Valid() && index + 2 * |ItemSlots(it, 0)| <= jumptable.Length
      modifies this`index, this`lessLabel, this`greaterLabel, this`values, this`errors, this`items, jumptable
      ensures Valid() && items == old(items) + [it]
    {
      hide Pushed, Filled, Slots, Distinct, LessLabel, GreaterLabel;
      ghost var slots := Slots(items);
      ghost var vs := Vals(slots);
      ghost var new_ := ItemSlots(it, |items|);
      SlotsGrow(items, it);
      match it {
        case Case(v, l) =>
          PushValue(v, vs);
          AddEntries(l, -1, slots, new_[0]);
        case Range(lo, hi, l) =>
          PushValue(lo, vs);
          PushValue(hi, vs + [lo]);
          AddEntries(l, l, slots, new_[0]);
          AddEntries(l, -1, slots + [new_[0]], new_[1]);
          assert slots + [new_[0]] + [new_[1]] == slots + new_;
          assert vs + [lo] + [hi] == Vals(slots + new_);
        case UpTo(hi, l) =>
          PushValue(hi, vs);
          lessLabel := l;
          AddEntries(l, -1, slots, new_[0]);
        case From(lo, l) =>
          PushValue(lo, vs);
          greaterLabel := l;
          AddEntries(l, -1, slots, new_[0]);
      }
      assert |new_| == 1 ==> vs + [new_[0].v] == Vals(slots + new_) && [new_[0]] == new_;
      items := items + [it];
    }

    method SetDefault(l: int)
      requires Valid()
      modifies this`defaultLabel
      ensures Valid() && (old(defaultLabel) == -1 ==> defaultLabel == l)
    {
      if defaultLabel == -1 {
        defaultLabel := l;
      }
    }

    /** The two "Case inside range." checks. */
    method CheckRanges(order: seq<nat>) returns (ok: bool)
      requires Valid() && !errors && index == jumptable.Length
      requires |order| == |Slots(items)| && forall e :: 0 <= e < |order| ==> order[e] < |order|
      requires forall i :: 0 <= i < |items| ==> items[i].lbl >= 0
      ensures ok <==> EndsFit(items, Slots(items), order) && RangesClosed(Slots(items), order, |order|)
    {
      hide Slots, LessLabel, GreaterLabel, Pushed, FromItem;
      ghost var slots := Slots(items);
      var cases := |order|;
      ok := true;
      if cases > 0 && ((lessLabel >= 0 && jumptable[order[0] * 2 + 2] != lessLabel)
                       || (greaterLabel >= 0 && jumptable[order[cases - 1] * 2 + 2] != greaterLabel)) {
        ok := false;
      }
      ghost var fits := ok;
      assert fits <==> EndsFit(items, slots, order);
      var e := 0;
      hide EndsFit;
      while e < cases - 1
        invariant 0 <= e <= cases
        invariant ok <==> fits && RangesClosed(slots, order, e)
      {
        StartsApart(items, order[e]);
        if order[e] < cases - 1 {
          var o1 := order[e] * 2 + 2;
          if jumptable[o1] == jumptable[o1 + 1] && jumptable[o1] == jumptable[o1 + 2] {
            if order[e] + 1 != order[e + 1] {
              ok := false;
            }
            e := e + 1;
          }
        }
        e := e + 1;
      }
    }

    /** Puts the two entries of each case in the order of the case values. */
    method ReorderTable(order: seq<nat>)
      requires Filled(Slots(items)) && jumptable.Length == 2 + 2 * |Slots(items)|
      requires |order| == |Slots(items)| && order == GetOrder(Vals(Slots(items)))
      requires forall e :: 0 <= e < |order| ==> order[e] < |order|
      modifies jumptable
      ensures Filled(Sorted(items))
    {
      hide Slots, GetOrder;
      var was := jumptable[..];
      var e := 0;
      while e < |order|
        invariant 0 <= e <= |order|
        invariant forall k :: 0 <= k < e ==> jumptable[2 + 2 * k] == Sorted(items)[k].lbl
        invariant forall k :: 0 <= k < e ==> jumptable[3 + 2 * k] == Sorted(items)[k].gap
      {
        jumptable[2 + 2 * e] := was[2 + 2 * order[e]];
        jumptable[3 + 2 * e] := was[3 + 2 * order[e]];
        e := e + 1;
      }
    }

    /** Sets the two outer entries and gives the default to every entry that is still free. The
        result tells whether some entry between two cases was taken. */
    method CloseTable(dflt: int) returns (gotRange: bool)
      requires Filled(Sorted(items)) && jumptable.Length == index == 2 + 2 * |Sorted(items)|
      requires lessLabel == LessLabel(items) && greaterLabel == GreaterLabel(items)
      requires Labelled(items, dflt)
      modifies jumptable
      ensures jumptable[1..] == Jumps(items, dflt)
      ensures !gotRange ==> forall p :: 0 <= p <= |Sorted(items)| ==> jumptable[1 + 2 * p] == dflt
    {
      hide Slots, GetOrder, Sorted, LessLabel, GreaterLabel;
      ghost var p := Sorted(items);
      jumptable[1] := lessLabel;
      jumptable[index - 1] := greaterLabel;
      OuterLabels(items);
      forall j: nat | j < 2 * |p| + 1 ensures jumptable[1 + j] == Raw(p, lessLabel, greaterLabel, j) {
        assert j == if j % 2 == 1 then 1 + 2 * (j / 2) else 2 * (j / 2);
      }
      hide Raw, Pointer;
      gotRange := false;
      var e := 1;
      while e < index
        invariant 1 <= e <= index
        invariant forall j: nat :: j < e - 1 ==> jumptable[1 + j] == Pointer(p, lessLabel, greaterLabel, dflt, j)
        invariant forall j: nat :: e - 1 <= j < 2 * |p| + 1 ==> jumptable[1 + j] == Raw(p, lessLabel, greaterLabel, j)
        invariant !gotRange ==> forall j: nat :: j < e - 1 && j % 2 == 0 ==> jumptable[1 + j] == dflt
      {
        RawPointer(items, dflt, e - 1);
        if jumptable[e] == -1 {
          jumptable[e] := dflt;
        } else if e % 2 == 1 {
          gotRange := true;
        }
        e := e + 1;
      }
      assert jumptable[1..] == Jumps(items, dflt);
      assert forall p :: 0 <= p <= |Sorted(items)| ==> (2 * p) % 2 == 0;
    }

    /** The mapping used when no range is: each case value to its place in the sorted table. */
    method MakeMapping(vs: seq<Value>) returns (m: map<Value, nat>)
      requires Distinct(vs)
      ensures forall x :: x in m ==> m[x] < |vs| && vs[m[x]] == x
      ensures forall e :: 0 <= e < |vs| ==> vs[e] in m
    {
      m := map[];
      var e := 0;
      while e < |vs|
        invariant 0 <= e <= |vs|
        invariant forall x :: x in m ==> m[x] < |vs| && vs[m[x]] == x
        invariant forall k :: 0 <= k < e ==> vs[k] in m
      {
        m := m[vs[e] := e];
        e := e + 1;
      }
    }

    /** The end of the switch: the checks, then the table and the constant of the switch
        instruction. freshLabel is the label made for a missing default. */
    method Finish(freshLabel: int) returns (ok: bool, c: Compiled)
      requires Valid() && index == jumptable.Length
      requires Labelled(items, if defaultLabel < 0 then freshLabel else defaultLabel)
      modifies this`defaultLabel, jumptable
      ensures ok <==> Accepted(items)
      ensures ok ==> defaultLabel == if old(defaultLabel) < 0 then freshLabel else old(defaultLabel)
      ensures ok ==> Labelled(items, defaultLabel) && IsCompiled(items, defaultLabel, c)
    {
      hide Slots, GetOrder, Sorted, LessLabel, GreaterLabel, Filled, Distinct, EndsFit, RangesClosed;
      c := Compiled(Searched([], {}), []);
      ok := !errors;
      if ok {
        var order := GetOrder(values);
        OrderIsOrder(values);
        ok := CheckRanges(order);
        var vs := values;
        SortedValues(items);
        SameTypes(items);
        var types := FixTypeField(vs);
        var sorted := seq(|order|, e requires 0 <= e < |order| => vs[order[e]]);
        assert sorted == Vals(Sorted(items));
        ReorderTable(order);
        if defaultLabel < 0 {
          defaultLabel := freshLabel;
        }
        var gotRange := CloseTable(defaultLabel);
        if gotRange {
          c := Compiled(Searched(sorted, types), jumptable[1..]);
        } else {
          SortedDistinct(items);
          var m := MakeMapping(sorted);
          c := Compiled(Mapped(m), jumptable[1..]);
        }
      }
    }
  }

  /** Values on the case labels of a body, counted before it is compiled. */
  function CountCases(items: seq<Item>): (n: nat)
    ensures n == |Slots(items)|
  {
    if items == [] then 0
    else CountCases(items[..|items| - 1]) + if items[|items| - 1].Range? then 2 else 1
  }

  lemma {:induction false} CountGrows(items: seq<Item>, n: nat)
    requires n <= |items|
    ensures CountCases(items[..n]) <= CountCases(items)
  {
    if n == |items| {
      assert items[..n] == items;
    } else {
      CountGrows(items[..|items| - 1], n);
      assert items[..|items| - 1][..n] == items[..n];
    }
  }

  /** A whole switch: the default label is dflt, or -1 if the body has none. */
  method CompileSwitch(body: seq<Item>, dflt: int, freshLabel: int) returns (ok: bool, c: Compiled)
    requires dflt >= -1 && Labelled(body, if dflt < 0 then freshLabel else dflt)
    ensures ok <==> Accepted(body)
    ensures ok ==> IsCompiled(body, if dflt < 0 then freshLabel else dflt, c)
    ensures ok ==> (Tame(body) && !Misleads(body, 1) && !Misleads(body, 8) <==>
              forall x, t :: Lands(c, x, t) ==> Chooses(body, if dflt < 0 then freshLabel else dflt, x, t))
  {
    hide Slots, Accepted, IsCompiled, Lands, Chooses, Tame, Misleads;
    var data := new SwitchData(CountCases(body));
    var i := 0;
    while i < |body|
      invariant 0 <= i <= |body|
      invariant data.Valid() && data.items == body[..i] && data.defaultLabel == -1
      invariant fresh(data) && fresh(data.jumptable)
      invariant data.jumptable.Length == 2 + 2 * CountCases(body)
    {
      CountGrows(body, i + 1);
      SlotsGrow(body[..i], body[i]);
      assert body[..i + 1] == body[..i] + [body[i]];
      data.AddCase(body[i]);
      i := i + 1;
    }
    assert body[..i] == body;
    if dflt != -1 {
      data.SetDefault(dflt);
    }
    ok, c := data.Finish(freshLabel);
    if ok {
      RightExactlyWhenTame(body, if dflt < 0 then freshLabel else dflt, c);
    }
  }

  lemma DistinctGrows(vs: seq<Value>, v: Value)
    ensures Distinct(vs + [v]) <==> Distinct(vs) && v !in vs
  {
    if v in vs {
      var i :| 0 <= i < |vs| && vs[i] == v;
      assert (vs + [v])[i] == (vs + [v])[|vs|];
    }
    assert forall i :: 0 <= i < |vs| ==> (vs + [v])[i] == vs[i];
  }

  lemma SlotsGrow(items: seq<Item>, it: Item)
    ensures Slots(items + [it]) == Slots(items) + ItemSlots(it, |items|)
    ensures LessLabel(items + [it]) == if it.UpTo? then it.lbl else LessLabel(items)
    ensures GreaterLabel(items + [it]) == if it.From? then it.lbl else GreaterLabel(items)
  {
    assert (items + [it])[..|items|] == items;
  }

  /** The slot after the low end of a range is its high end, not the low end of another one. */
  lemma StartsApart(items: seq<Item>, k: nat)
    requires forall i :: 0 <= i < |items| ==> items[i].lbl >= 0
    ensures IsStart(Slots(items), k) ==> !IsStart(Slots(items), k + 1)
  {
    SlotOrigin(items);
    assert k < |Slots(items)| ==> FromItem(items, Slots(items), k);
    assert k + 1 < |Slots(items)| ==> FromItem(items, Slots(items), k + 1);
  }

  /** The outer labels are those of open items, or -1; a case's own label is never -1. */
  lemma OuterLabels(items: seq<Item>)
    ensures |Slots(items)| == 0 ==> LessLabel(items) == GreaterLabel(items)
  {
    OpenEnds(items);
    if |items| > 0 {
      var k := ItemHasSlot(items, 0);
    }
  }

  lemma RawPointer(items: seq<Item>, dflt: int, j: nat)
    requires Labelled(items, dflt) && j < 2 * |Sorted(items)| + 1
    ensures Pointer(Sorted(items), LessLabel(items), GreaterLabel(items), dflt, j) ==
            Or(Raw(Sorted(items), LessLabel(items), GreaterLabel(items), j), dflt)
  {
    if j % 2 == 1 {
      OwnerOf(items, j / 2);
    }
  }

  lemma SortedValues(items: seq<Item>)
    ensures var vs := Vals(Slots(items));
      |GetOrder(vs)| == |Sorted(items)| == |vs|
      && forall e :: 0 <= e < |vs| ==> GetOrder(vs)[e] < |vs| && Vals(Sorted(items))[e] == vs[GetOrder(vs)[e]]
  {
    OrderIsOrder(Vals(Slots(items)));
  }

  lemma SortedDistinct(items: seq<Item>)
    requires Distinct(Vals(Slots(items)))
    ensures Distinct(Vals(Sorted(items)))
  {
    SortedAscends(items);
    var vs := Vals(Sorted(items));
    forall i, j | 0 <= i < j < |vs| ensures vs[i] != vs[j] {
      Trichotomy(vs[i], vs[j]);
    }
  }
}
