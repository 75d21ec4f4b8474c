/** Pike values as far as the basic-type comparison functions look at them. */
module Values {
  import opened Basics
  import opened Strings

  /** Objects and functions, which may overload the comparison, are not part of this model. */
  datatype Value =
    | IntVal(n: int)
    | FloatVal(x: real)
    | ArrayVal(addr: nat)
    | MappingVal(addr: nat)
    | MultisetVal(addr: nat)
    | ProgramVal(addr: nat)
    | StringVal(s: Str)
    | TypeVal(addr: nat)

  /** The run-time type number. */
  function Tag(v: Value): (t: nat)
    ensures t < 16
  {
    match v
    case IntVal(_) => 0
    case FloatVal(_) => 1
    case ArrayVal(_) => 8
    case MappingVal(_) => 9
    case MultisetVal(_) => 10
    case ProgramVal(_) => 13
    case StringVal(_) => 14
    case TypeVal(_) => 15
  }

  /** Types are compared first, then the contents: numbers by size, strings by characters, and
      everything else by address. */
  predicate Before(a: Value, b: Value) {
    if Tag(a) != Tag(b) then Tag(a) < Tag(b)
    else
      match a
      case IntVal(n) => n < b.n
      case FloatVal(x) => x < b.x
      case StringVal(s) => Less(s, b.s)
      case _ => a.addr < b.addr
  }

  /** Negative, zero or positive, like a C comparison function. */
  function Cmp(a: Value, b: Value): int {
    if Before(a, b) then -1 else if a == b then 0 else 1
  }

  lemma Trichotomy(a: Value, b: Value)
    ensures Before(a, b) || a == b || Before(b, a)
    ensures !(Before(a, b) && Before(b, a)) && !Before(a, a)
  {
    if a.StringVal? && b.StringVal? {
      Total(a.s, b.s);
    }
    if a.StringVal? {
      Total(a.s, a.s);
    }
  }

  lemma BeforeTrans(a: Value, b: Value, c: Value)
    requires Before(a, b) && Before(b, c)
    ensures Before(a, c)
  {
    if a.StringVal? && c.StringVal? {
      Transitive(a.s, b.s, c.s);
    }
  }

  ghost predicate Ascends(s: seq<Value>) {
    forall i, j :: 0 <= i < j < |s| ==> Before(s[i], s[j])
  }

  // ---- Orders ----

  /** In a stable sort, index i comes before index j. */
  predicate Sooner(v: seq<Value>, i: nat, j: nat)
    requires i < |v| && j < |v|
  {
    Before(v[i], v[j]) || (v[i] == v[j] && i < j)
  }

  /** order is the stable sorting permutation of v. */
  ghost predicate IsOrder(v: seq<Value>, order: seq<nat>) {
    && |order| == |v|
    && (forall e :: 0 <= e < |order| ==> order[e] < |v|)
    && (forall e, f :: 0 <= e < f < |order| ==> Sooner(v, order[e], order[f]))
    && (forall i :: 0 <= i < |v| ==> i in order)
  }

  /** The stable sorting permutation of the first n indices (the sorting template itself is not
      part of this model). */
  function OrderOf(v: seq<Value>, n: nat): (r: seq<nat>)
    requires n <= |v|
    ensures |r| == n && forall i :: i in r <==> 0 <= i < n
  {
    if n == 0 then []
    else
      var r := OrderOf(v, n - 1);
      assert forall e :: 0 <= e < |r| ==> r[e] in r;
      InsertIndex(v, r, n - 1)
  }

  function InsertIndex(v: seq<Value>, r: seq<nat>, i: nat): (s: seq<nat>)
    requires i < |v| && forall e :: 0 <= e < |r| ==> r[e] < |v|
    ensures |s| == |r| + 1 && forall k :: k in s <==> k == i || k in r
  {
    if r == [] then [i]
    else
      var last := r[|r| - 1];
      assert r == r[..|r| - 1] + [last];
      if Before(v[i], v[last]) then InsertIndex(v, r[..|r| - 1], i) + [last] else r + [i]
  }

  ghost predicate StablySorted(v: seq<Value>, r: seq<nat>) {
    && (forall e :: 0 <= e < |r| ==> r[e] < |v|)
    && (forall e, f :: 0 <= e < f < |r| ==> Sooner(v, r[e], r[f]))
  }

  lemma SoonerTrans(v: seq<Value>, i: nat, j: nat, k: nat)
    requires i < |v| && j < |v| && k < |v| && Sooner(v, i, j) && Sooner(v, j, k)
    ensures Sooner(v, i, k)
  {
    if Before(v[i], v[j]) && Before(v[j], v[k]) {
      BeforeTrans(v[i], v[j], v[k]);
    }
  }

  lemma {:induction false} InsertStable(v: seq<Value>, r: seq<nat>, i: nat)
    requires i < |v| && StablySorted(v, r) && forall e :: 0 <= e < |r| ==> r[e] < i
    ensures StablySorted(v, InsertIndex(v, r, i))
  {
    if r != [] {
      var last := r[|r| - 1];
      assert last in r;
      Trichotomy(v[i], v[last]);
      if Before(v[i], v[last]) {
        InsertStable(v, r[..|r| - 1], i);
        var s := InsertIndex(v, r[..|r| - 1], i);
        forall e | 0 <= e < |s| ensures Sooner(v, s[e], last) {
          assert s[e] in s;
          if s[e] != i {
            var k :| 0 <= k < |r| - 1 && r[k] == s[e];
          }
        }
      } else {
        forall e | 0 <= e < |r| ensures Sooner(v, r[e], i) {
          assert r[e] in r;
          if e < |r| - 1 {
            SoonerTrans(v, r[e], last, i);
          }
        }
      }
    }
  }

  lemma {:induction false} OrderStable(v: seq<Value>, n: nat)
    requires n <= |v|
    ensures StablySorted(v, OrderOf(v, n))
  {
    if n > 0 {
      OrderStable(v, n - 1);
      var r := OrderOf(v, n - 1);
      AllIndices(r, n - 1);
      hide StablySorted, InsertIndex;
      InsertStable(v, r, n - 1);
    }
  }

  lemma AllIndices(r: seq<nat>, n: nat)
    requires forall i :: i in r <==> 0 <= i < n
    ensures forall e :: 0 <= e < |r| ==> r[e] < n
  {
    assert forall e :: 0 <= e < |r| ==> r[e] in r;
  }

  function GetOrder(v: seq<Value>): seq<nat> {
    OrderOf(v, |v|)
  }

  lemma OrderIsOrder(v: seq<Value>)
    ensures IsOrder(v, GetOrder(v))
  {
    OrderStable(v, |v|);
    assert forall e :: 0 <= e < |v| ==> GetOrder(v)[e] in GetOrder(v);
  }

  /** An order names every index once. */
  lemma OrderDistinct(v: seq<Value>, order: seq<nat>)
    requires IsOrder(v, order)
    ensures forall e, f :: 0 <= e < f < |order| ==> order[e] != order[f]
  {
    forall e, f | 0 <= e < f < |order| ensures order[e] != order[f] {
      Trichotomy(v[order[e]], v[order[f]]);
    }
  }

  // ---- Binary search ----

  /** Index of s in the ascending v, or ~p for the place p where it belongs. */
  method LowLookup(v: seq<Value>, s: Value) returns (r: int)
    requires Ascends(v)
    ensures r >= 0 ==> r < |v| && v[r] == s
    ensures r < 0 ==> 0 <= -r - 1 <= |v| && Belongs(v, s, -r - 1)
  {
    var a, b := 0, |v|;
    while a < b
      invariant 0 <= a <= b <= |v|
      invariant forall i :: 0 <= i < a ==> Before(v[i], s)
      invariant forall i :: b <= i < |v| ==> Before(s, v[i])
    {
      var c := (a + b) / 2;
      Trichotomy(v[c], s);
      var q := Cmp(v[c], s);
      if q < 0 {
        forall i | 0 <= i < c ensures Before(v[i], s) {
          BeforeTrans(v[i], v[c], s);
        }
        a := c + 1;
      } else if q > 0 {
        forall i | c < i < |v| ensures Before(s, v[i]) {
          BeforeTrans(s, v[c], v[i]);
        }
        b := c;
      } else {
        return c;
      }
    }
    if a < |v| && Cmp(v[a], s) < 0 {
      Trichotomy(v[a], s);
      a := a + 1;
    }
    return -a - 1;
  }

  /** Everything before place p is smaller than s, everything from there on is greater. */
  ghost predicate Belongs(v: seq<Value>, s: Value, p: nat)
    requires p <= |v|
  {
    && (forall i :: 0 <= i < p ==> Before(v[i], s))
    && (forall i :: p <= i < |v| ==> Before(s, v[i]))
  }

  /** The types that may occur in an array; it may name more than really occur. */
  type TypeField = set<nat>

  ghost predicate Covers(types: TypeField, v: seq<Value>) {
    forall i :: 0 <= i < |v| ==> Tag(v[i]) in types
  }

  /** The types that do occur. */
  function TypesOf(v: seq<Value>): TypeField {
    set i | 0 <= i < |v| :: Tag(v[i])
  }

  /** Collects the types that occur. */
  method FixTypeField(v: seq<Value>) returns (t: TypeField)
    ensures t == TypesOf(v)
  {
    t := {};
    for e := 0 to |v|
      invariant t == TypesOf(v[..e])
    {
      assert forall k :: 0 <= k < e ==> v[..e + 1][k] == v[..e][k];
      assert v[..e + 1][e] == v[e];
      t := t + {Tag(v[e])};
    }
    assert v[..|v|] == v;
  }

  /** BIT_MIXED: the bits of all types, without that of type 7, which no value has. */
  const MIXED := 0xff7f

  predicate Bit(n: nat, k: nat) {
    n / Pow2(k) % 2 == 1
  }

  /** Bit t of MIXED << g & MIXED, which is to select the types from g on. */
  predicate Seen(g: nat, t: nat) {
    g <= t && Bit(MIXED, t - g) && Bit(MIXED, t)
  }

  /** The two masks make the lookup of a value of type g skip the search and answer that the value comes
      after everything. */
  predicate Skips(types: TypeField, g: nat) {
    (exists t :: t in types && t <= g) && (forall t :: t in types ==> !Seen(g, t))
  }

  /** Moving the mask moves its hole: to ARRAY for a float, to TYPE for an array. This is the type field
      for which only that type stands between the value and "after everything". */
  ghost predicate Misplaces(types: TypeField, g: nat) {
    && (g == 1 || g == 8) && g + 7 in types
    && (exists t :: t in types && t < g) && (forall t :: t in types && t >= g ==> t == g + 7)
  }

  /** r is the index of s, or ~p for the place p where it belongs. */
  ghost predicate IsPlace(v: seq<Value>, s: Value, r: int) {
    if r >= 0 then r < |v| && v[r] == s else -r - 1 <= |v| && Belongs(v, s, -r - 1)
  }

  /** The lookup used by set and switch tables: when the types alone tell that s comes before or
      after everything, the search is skipped. */
  method TypedLookup(v: seq<Value>, types: TypeField, s: Value) returns (r: int)
    requires Ascends(v) && Covers(types, v)
    ensures if Skips(types, Tag(s)) then r == -|v| - 1 else IsPlace(v, s, r)
    ensures types == TypesOf(v) ==> (IsPlace(v, s, r) <==> !Misplaces(types, Tag(s)))
  {
    if types == TypesOf(v) {
      SkipsWrongly(v, s);
    }
    if forall t :: t in types ==> t > Tag(s) {
      return -1;
    }
    if forall t :: t in types ==> !Seen(Tag(s), t) {
      return -|v| - 1;
    }
    r := LowLookup(v, s);
  }

  lemma MixedBits(k: nat)
    requires k < 16
    ensures Bit(MIXED, k) <==> k != 7
  {
    assert Pow2(0) == 1 && Pow2(1) == 2 && Pow2(2) == 4 && Pow2(3) == 8 && Pow2(4) == 16 && Pow2(5) == 32;
    assert Pow2(6) == 64 && Pow2(7) == 128 && Pow2(8) == 256 && Pow2(9) == 512 && Pow2(10) == 1024;
    assert Pow2(11) == 2048 && Pow2(12) == 4096 && Pow2(13) == 8192 && Pow2(14) == 16384 && Pow2(15) == 32768;
    hide Pow2;
  }

  /** When the type field is exact, skipping the search is wrong exactly in the case described. */
  lemma SkipsWrongly(v: seq<Value>, s: Value)
    requires Ascends(v)
    ensures Skips(TypesOf(v), Tag(s)) && !Belongs(v, s, |v|) <==> Misplaces(TypesOf(v), Tag(s))
  {
    var types, g := TypesOf(v), Tag(s);
    forall t: nat | t in types ensures Seen(g, t) <==> g <= t && t != g + 7 {
      var i :| 0 <= i < |v| && Tag(v[i]) == t;
      if g <= t {
        MixedBits(t - g);
        MixedBits(t);
      }
    }
    forall i | 0 <= i < |v| ensures Tag(v[i]) in types {
    }
    hide Seen, TypesOf;
    if Misplaces(types, g) {
      assert Tag(v[0]) in types;
    }
  }
}
