/** Switches over numbers, with case labels and their meaning in plain numbers. */
module SwitchNumbers {
  import opened Values
  import opened Switch
  import opened SwitchCompiler

  /** A case label over numbers: all of them floats, or all of them integers. */
  datatype Label =
    | One(x: real, lbl: int)
    | Span(lo: real, hi: real, lbl: int)
    | To(hi: real, lbl: int)
    | Since(lo: real, lbl: int)

  /** The number is in the label's range. */
  ghost predicate Holds(k: Label, x: real) {
    match k
    case One(y, _) => x == y
    case Span(lo, hi, _) => lo <= x <= hi
    case To(hi, _) => x <= hi
    case Since(lo, _) => lo <= x
  }

  ghost predicate Fits(float: bool, x: real) {
    float || x == x.Floor as real
  }

  ghost predicate LabelFits(float: bool, k: Label) {
    match k
    case One(x, _) => Fits(float, x)
    case Span(lo, hi, _) => Fits(float, lo) && Fits(float, hi)
    case To(hi, _) => Fits(float, hi)
    case Since(lo, _) => Fits(float, lo)
  }

  ghost predicate AllFit(float: bool, ks: seq<Label>) {
    forall i :: 0 <= i < |ks| ==> LabelFits(float, ks[i])
  }

  function Num(float: bool, x: real): Value {
    if float then FloatVal(x) else IntVal(x.Floor)
  }

  function ItemOf(float: bool, k: Label): (it: Item)
    ensures it.lbl == k.lbl
  {
    match k
    case One(x, l) => Case(Num(float, x), l)
    case Span(lo, hi, l) => Range(Num(float, lo), Num(float, hi), l)
    case To(hi, l) => UpTo(Num(float, hi), l)
    case Since(lo, l) => From(Num(float, lo), l)
  }

  function ItemsOf(float: bool, ks: seq<Label>): (r: seq<Item>)
    ensures |r| == |ks| && forall i :: 0 <= i < |r| ==> r[i] == ItemOf(float, ks[i])
  {
    seq(|ks|, i requires 0 <= i < |ks| => ItemOf(float, ks[i]))
  }

  /** The spans are the right way round, and at most one label is open at each end. */
  ghost predicate Upright(ks: seq<Label>) {
    && (forall i :: 0 <= i < |ks| && ks[i].Span? ==> ks[i].lo < ks[i].hi)
    && (forall i, j :: 0 <= i < j < |ks| ==> !(ks[i].To? && ks[j].To?) && !(ks[i].Since? && ks[j].Since?))
  }

  /** No number is in the range of two labels. */
  ghost predicate Separate(float: bool, ks: seq<Label>) {
    forall i, j, x :: 0 <= i < j < |ks| && Fits(float, x) ==> !(Holds(ks[i], x) && Holds(ks[j], x))
  }

  // ---- Values are ordered as numbers are, type by type ----

  lemma NumbersInOrder(float: bool, x: real, y: real)
    requires Fits(float, x) && Fits(float, y)
    ensures Before(Num(float, x), Num(float, y)) <==> x < y
    ensures Num(float, x) == Num(float, y) <==> x == y
  {
  }

  /** Integers come before floats, these before arrays, mappings, multisets, programs, strings and types. */
  lemma TypesInOrder(n: int, x: real, i: nat, j: nat, k: nat, l: nat, s: seq<int>, t: nat)
    ensures var v := [IntVal(n), FloatVal(x), ArrayVal(i), MappingVal(j), MultisetVal(k), ProgramVal(l), StringVal(s),
                      TypeVal(t)];
      forall a, b :: 0 <= a < b < |v| ==> Before(v[a], v[b])
  {
    var v := [IntVal(n), FloatVal(x), ArrayVal(i), MappingVal(j), MultisetVal(k), ProgramVal(l), StringVal(s),
              TypeVal(t)];
    assert forall a, b :: 0 <= a < b < |v| ==> Tag(v[a]) < Tag(v[b]);
  }

  // ---- What labels over numbers contain ----

  lemma HoldsExactly(float: bool, k: Label, x: real)
    requires LabelFits(float, k) && Fits(float, x)
    ensures Contains(ItemOf(float, k), Num(float, x)) <==> Holds(k, x)
  {
    hide Before, Num;
    match k
    case One(y, _) => NumbersInOrder(float, x, y);
    case Span(lo, hi, _) =>
      NumbersInOrder(float, x, lo);
      NumbersInOrder(float, hi, x);
    case To(hi, _) => NumbersInOrder(float, hi, x);
    case Since(lo, _) => NumbersInOrder(float, x, lo);
  }

  lemma TameExactly(float: bool, ks: seq<Label>)
    requires AllFit(float, ks)
    ensures Tame(ItemsOf(float, ks)) <==> Upright(ks)
  {
    var items := ItemsOf(float, ks);
    hide Before, Num;
    forall i | 0 <= i < |ks| && ks[i].Span?
      ensures items[i].Range? && (Before(items[i].lo, items[i].hi) <==> ks[i].lo < ks[i].hi)
    {
      assert LabelFits(float, ks[i]);
      NumbersInOrder(float, ks[i].lo, ks[i].hi);
    }
    hide ItemsOf, LabelFits;
    assert forall i :: 0 <= i < |ks| ==> (items[i].Range? <==> ks[i].Span?) && (items[i].UpTo? <==> ks[i].To?)
                                         && (items[i].From? <==> ks[i].Since?);
  }

  /** A value that two such labels have in common is a number of their kind, or one of them is open. */
  lemma CommonIsNumber(float: bool, k: Label, l: Label, v: Value) returns (x: real)
    requires LabelFits(float, k) && LabelFits(float, l)
    requires Contains(ItemOf(float, k), v) && Contains(ItemOf(float, l), v)
    ensures (Fits(float, x) && v == Num(float, x)) || (k.To? && l.To?) || (k.Since? && l.Since?)
  {
    x := match v case IntVal(n) => n as real case FloatVal(y) => y case _ => 0.0;
  }

  lemma DisjointExactly(float: bool, ks: seq<Label>)
    requires AllFit(float, ks) && Upright(ks)
    ensures Disjoint(ItemsOf(float, ks)) <==> Separate(float, ks)
  {
    var items := ItemsOf(float, ks);
    hide Contains, ItemsOf, Num, Holds;
    if Separate(float, ks) {
      forall i, j, v | 0 <= i < j < |items| ensures !(Contains(items[i], v) && Contains(items[j], v)) {
        assert LabelFits(float, ks[i]) && LabelFits(float, ks[j]);
        if Contains(items[i], v) && Contains(items[j], v) {
          var x := CommonIsNumber(float, ks[i], ks[j], v);
          HoldsExactly(float, ks[i], x);
          HoldsExactly(float, ks[j], x);
        }
      }
    }
    if Disjoint(items) {
      forall i, j, x | 0 <= i < j < |ks| && Fits(float, x) ensures !(Holds(ks[i], x) && Holds(ks[j], x)) {
        assert LabelFits(float, ks[i]) && LabelFits(float, ks[j]);
        HoldsExactly(float, ks[i], x);
        HoldsExactly(float, ks[j], x);
        assert items[i] == ItemOf(float, ks[i]) && items[j] == ItemOf(float, ks[j]);
      }
    }
  }

  /** Labels of one type of number never mislead the lookup. */
  lemma NotMisled(float: bool, ks: seq<Label>)
    ensures !Misleads(ItemsOf(float, ks), 1) && !Misleads(ItemsOf(float, ks), 8)
  {
    var items := ItemsOf(float, ks);
    var slots := Slots(items);
    SlotOrigin(items);
    hide Slots;
    forall k | 0 <= k < |slots| ensures Tag(Vals(slots)[k]) < 2 {
      assert FromItem(items, slots, k);
      assert items[slots[k].owner] == ItemOf(float, ks[slots[k].owner]);
    }
  }

  /** The constant and the pointers are as the switch instruction needs them. */
  lemma Runnable(items: seq<Item>, dflt: int, c: Compiled)
    requires Accepted(items) && IsCompiled(items, dflt, c)
    ensures c.table.Searched? ==> |c.jumps| == 2 * |c.table.values| + 1 && Ascends(c.table.values)
                                  && Covers(c.table.types, c.table.values)
    ensures c.table.Mapped? ==> |c.jumps| > 0 && forall y :: y in c.table.index ==>
              1 + 2 * c.table.index[y] < |c.jumps|
  {
    CasesAscend(items);
    hide Accepted, Sorted, Slots, Pointer;
  }

  /** Where a number has to go: to the label of every range it is in, to the default if it is in none. */
  ghost predicate GoesTo(ks: seq<Label>, dflt: int, x: real, t: int) {
    && (forall i :: 0 <= i < |ks| && Holds(ks[i], x) ==> t == ks[i].lbl)
    && ((forall i :: 0 <= i < |ks| ==> !Holds(ks[i], x)) ==> t == dflt)
  }

  lemma ChoosesExactly(float: bool, ks: seq<Label>, dflt: int, x: real, t: int)
    requires AllFit(float, ks) && Fits(float, x) && Chooses(ItemsOf(float, ks), dflt, Num(float, x), t)
    ensures GoesTo(ks, dflt, x, t)
  {
    var items := ItemsOf(float, ks);
    forall i | 0 <= i < |ks| ensures Contains(items[i], Num(float, x)) <==> Holds(ks[i], x) {
      assert LabelFits(float, ks[i]);
      HoldsExactly(float, ks[i], x);
    }
    hide Contains, Holds, ItemsOf, Num;
  }

  /** A switch over numbers, compiled and run on one of them.  With the spans the right way round and at most one
      label open at each end, it compiles exactly when no number is in two ranges, and then every number
      goes where the plain numbers say. */
  method SwitchOnNumber(float: bool, ks: seq<Label>, dflt: int, freshLabel: int, x: real) returns (ok: bool, t: int)
    requires AllFit(float, ks) && Fits(float, x)
    requires var d := if dflt < 0 then freshLabel else dflt;
      && dflt >= -1 && d >= 0 && (forall i :: 0 <= i < |ks| ==> ks[i].lbl >= 0 && ks[i].lbl != d)
      && forall i, j :: 0 <= i < j < |ks| ==> ks[i].lbl != ks[j].lbl
    ensures Upright(ks) ==> (ok <==> Separate(float, ks))
    ensures Upright(ks) && ok ==> GoesTo(ks, if dflt < 0 then freshLabel else dflt, x, t)
  {
    var items := ItemsOf(float, ks);
    var c;
    ok, c := CompileSwitch(items, dflt, freshLabel);
    t := -1;
    ghost var d := if dflt < 0 then freshLabel else dflt;
    hide Accepted, IsCompiled, Tame, Misleads, Lands, Chooses, Disjoint, Upright, Separate, AllFit, GoesTo, Ascends;
    hide Covers;
    TameExactly(float, ks);
    NotMisled(float, ks);
    if Upright(ks) {
      AcceptedExactlyWhenDisjoint(items, d);
      DisjointExactly(float, ks);
    }
    if ok {
      Runnable(items, d, c);
      t := Dispatch(c, Num(float, x));
      if Upright(ks) {
        ChoosesExactly(float, ks, d, x, t);
      }
    }
  }
}
