/** Set operations on arrays: two sorted copies are merged step by step, the result is put back in
    the original order, and the rules for each operation are stated on the unsorted arrays. */
module MergeArrays {
  import opened Values

  // ---- Operations ----

  datatype Op = And | AndLeft | Or | OrLeft | Xor | Add | Sub

  /** What one step of the merge does: put the current element of either side into the result, and
      move past it. */
  datatype Step = Step(keepA: bool, skipA: bool, keepB: bool, skipB: bool)

  const SKIP_A := Step(false, true, false, false)
  const TAKE_A := Step(true, true, false, false)
  const SKIP_B := Step(false, false, false, true)
  const TAKE_B := Step(false, false, true, true)

  function Both(s: Step, t: Step): Step {
    Step(s.keepA || t.keepA, s.skipA || t.skipA, s.keepB || t.keepB, s.skipB || t.skipB)
  }

  /** The step for a smaller element in a. */
  function Smaller(op: Op): Step {
    match op
    case And => SKIP_A
    case AndLeft => SKIP_A
    case Or => TAKE_A
    case OrLeft => TAKE_A
    case Xor => TAKE_A
    case Add => TAKE_A
    case Sub => TAKE_A
  }

  /** The step for equal elements. */
  function Same(op: Op): Step {
    match op
    case And => Both(SKIP_A, TAKE_B)
    case AndLeft => Both(SKIP_B, TAKE_A)
    case Or => Both(SKIP_A, TAKE_B)
    case OrLeft => Both(SKIP_B, TAKE_A)
    case Xor => Both(SKIP_A, SKIP_B)
    case Add => Both(TAKE_A, TAKE_B)
    case Sub => SKIP_A
  }

  /** The step for a smaller element in b. */
  function Greater(op: Op): Step {
    match op
    case And => SKIP_B
    case AndLeft => SKIP_B
    case Or => TAKE_B
    case OrLeft => TAKE_B
    case Xor => TAKE_B
    case Add => TAKE_B
    case Sub => SKIP_B
  }

  // ---- What the operations mean ----

  /** How many of s[lo..hi) equal v. */
  function Tally(s: seq<Value>, lo: nat, hi: nat, v: Value): nat
    requires hi <= |s|
    decreases hi - lo
  {
    if lo >= hi then 0 else (if s[lo] == v then 1 else 0) + Tally(s, lo + 1, hi, v)
  }

  /** Whether an element of a stays in the result, when r equal ones come before it in a and there
      are c equal ones in b. */
  predicate StaysA(op: Op, r: nat, c: nat) {
    match op
    case And => false
    case AndLeft => r < c
    case Or => r >= c
    case OrLeft => true
    case Xor => r >= c
    case Add => true
    case Sub => c == 0
  }

  /** The same for an element of b. */
  predicate StaysB(op: Op, r: nat, c: nat) {
    match op
    case And => r < c
    case AndLeft => false
    case Or => true
    case OrLeft => r >= c
    case Xor => r >= c
    case Add => true
    case Sub => false
  }

  predicate Stays(op: Op, left: bool, r: nat, c: nat) {
    if left then StaysA(op, r, c) else StaysB(op, r, c)
  }

  /** The elements of s[..n] that stay when t is the other array, in the order of s; left tells
      that s is the left operand. */
  function Kept(s: seq<Value>, t: seq<Value>, op: Op, left: bool, n: nat): seq<Value>
    requires n <= |s|
  {
    if n == 0 then []
    else
      Kept(s, t, op, left, n - 1)
      + if Stays(op, left, Tally(s, 0, n - 1, s[n - 1]), Tally(t, 0, |t|, s[n - 1])) then [s[n - 1]] else []
  }

  function Merged(a: seq<Value>, b: seq<Value>, op: Op): seq<Value> {
    Kept(a, b, op, true, |a|) + Kept(b, a, op, false, |b|)
  }

  /** How often a value occurs in the result, given how often it occurs in a and in b. */
  function Times(op: Op, m: nat, n: nat): nat {
    match op
    case And => if m < n then m else n
    case AndLeft => if m < n then m else n
    case Or => if m < n then n else m
    case OrLeft => if m < n then n else m
    case Xor => if m < n then n - m else m - n
    case Add => m + n
    case Sub => if n == 0 then m else 0
  }

  // ---- Merging sorted arrays ----

  ghost predicate NonDescending(s: seq<Value>) {
    forall i, j :: 0 <= i < j < |s| ==> !Before(s[j], s[i])
  }

  ghost predicate Unique(r: seq<int>) {
    forall k, l :: 0 <= k < l < |r| ==> r[k] != r[l]
  }

  lemma UniqueCons(y: int, r: seq<int>)
    requires Unique(r) && y !in r
    ensures Unique([y] + r)
  {
    assert forall l :: 0 <= l < |r| ==> r[l] in r;
  }

  /** The zipper entry for element j of b. */
  function Inv(j: nat): int {
    -(j as int) - 1
  }

  function Upwards(i: nat, n: nat): (r: seq<int>)
    ensures (forall y :: y in r <==> i <= y < n) && Unique(r)
    decreases n - i
  {
    if i >= n then []
    else
      var rest := Upwards(i + 1, n);
      UniqueCons(i, rest);
      [i as int] + rest
  }

  function Inverted(j: nat, n: nat): (r: seq<int>)
    ensures (forall y :: y in r <==> j <= -y - 1 < n) && Unique(r)
    decreases n - j
  {
    if j >= n then []
    else
      var rest := Inverted(j + 1, n);
      UniqueCons(Inv(j), rest);
      [Inv(j)] + rest
  }

  function StepAt(x: Value, y: Value, op: Op): (s: Step)
    ensures s.skipA || s.skipB
  {
    if Cmp(x, y) < 0 then Smaller(op) else if Cmp(x, y) > 0 then Greater(op) else Same(op)
  }

  function Emitted(s: Step, ap: nat, bp: nat): seq<int> {
    (if s.keepA then [ap as int] else []) + (if s.keepB then [Inv(bp)] else [])
  }

  /** The zipper for a[ap..] and b[bp..]: i >= 0 stands for a[i], i < 0 for b[~i]. */
  function Zip(a: seq<Value>, b: seq<Value>, op: Op, ap: nat, bp: nat): seq<int>
    requires ap <= |a| && bp <= |b|
    decreases |a| - ap + |b| - bp
  {
    if ap < |a| && bp < |b| then
      var s := StepAt(a[ap], b[bp], op);
      Emitted(s, ap, bp)
      + Zip(a, b, op, if s.skipA then ap + 1 else ap, if s.skipB then bp + 1 else bp)
    else
      (if Smaller(op).keepA then Upwards(ap, |a|) else []) + (if Greater(op).keepB then Inverted(bp, |b|) else [])
  }

  method AppendUpwards(z: seq<int>, ap: nat, n: nat) returns (r: seq<int>)
    requires ap <= n
    ensures r == z + Upwards(ap, n)
  {
    r := z;
    var i := ap;
    while i < n
      invariant ap <= i <= n && r + Upwards(i, n) == z + Upwards(ap, n)
    {
      assert r + ([i as int] + Upwards(i + 1, n)) == r + [i as int] + Upwards(i + 1, n);
      r := r + [i as int];
      i := i + 1;
    }
  }

  method AppendInverted(z: seq<int>, bp: nat, n: nat) returns (r: seq<int>)
    requires bp <= n
    ensures r == z + Inverted(bp, n)
  {
    r := z;
    var j := bp;
    while j < n
      invariant bp <= j <= n && r + Inverted(j, n) == z + Inverted(bp, n)
    {
      assert r + ([Inv(j)] + Inverted(j + 1, n)) == r + [Inv(j)] + Inverted(j + 1, n);
      r := r + [Inv(j)];
      j := j + 1;
    }
  }

  /** The body of the merge loop. */
  method OneStep(z: seq<int>, ap: nat, bp: nat, s: Step) returns (z': seq<int>, ap': nat, bp': nat)
    ensures z' == z + Emitted(s, ap, bp)
    ensures ap' == (if s.skipA then ap + 1 else ap) && bp' == (if s.skipB then bp + 1 else bp)
  {
    z', ap', bp' := z, ap, bp;
    if s.keepA {
      z' := z' + [ap as int];
    }
    if s.keepB {
      z' := z' + [Inv(bp)];
    }
    if s.skipA {
      ap' := ap' + 1;
    }
    if s.skipB {
      bp' := bp' + 1;
    }
  }

  lemma ZipStep(z: seq<int>, a: seq<Value>, b: seq<Value>, op: Op, ap: nat, bp: nat)
    requires ap < |a| && bp < |b|
    ensures var s := StepAt(a[ap], b[bp], op);
      z + Zip(a, b, op, ap, bp) ==
      z + Emitted(s, ap, bp) + Zip(a, b, op, if s.skipA then ap + 1 else ap, if s.skipB then bp + 1 else bp)
  {
    hide Cmp, Smaller, Same, Greater, StepAt, Upwards, Inverted, Emitted;
  }

  lemma ZipTails(z: seq<int>, a: seq<Value>, b: seq<Value>, op: Op, ap: nat, bp: nat)
    requires ap <= |a| && bp <= |b| && (ap == |a| || bp == |b|)
    ensures z + Zip(a, b, op, ap, bp) ==
            z + (if Smaller(op).keepA then Upwards(ap, |a|) else [])
              + (if Greater(op).keepB then Inverted(bp, |b|) else [])
  {
    hide Upwards, Inverted, Smaller, Greater;
  }

  method MergeLoop(a: seq<Value>, b: seq<Value>, op: Op) returns (z: seq<int>, ap: nat, bp: nat)
    ensures ap <= |a| && bp <= |b| && (ap == |a| || bp == |b|)
    ensures z + Zip(a, b, op, ap, bp) == Zip(a, b, op, 0, 0)
  {
    hide Zip, Smaller, Same, Greater, Emitted, Cmp, StepAt;
    z, ap, bp := [], 0, 0;
    assert z + Zip(a, b, op, ap, bp) == Zip(a, b, op, 0, 0);
    while ap < |a| && bp < |b|
      invariant ap <= |a| && bp <= |b|
      invariant z + Zip(a, b, op, ap, bp) == Zip(a, b, op, 0, 0)
      decreases |a| - ap + |b| - bp
    {
      ZipStep(z, a, b, op, ap, bp);
      z, ap, bp := OneStep(z, ap, bp, StepAt(a[ap], b[bp], op));
    }
  }

  /** The merge itself. When the arrays share no type, intersection and difference are known at once. */
  method Merge(a: seq<Value>, b: seq<Value>, op: Op, typesA: TypeField, typesB: TypeField) returns (z: seq<int>)
    requires NonDescending(a) && NonDescending(b) && Covers(typesA, a) && Covers(typesB, b)
    ensures IsZipper(a, b, op, z)
  {
    hide NonDescending, Covers, Smaller, Greater, IsZipper, Zip, Upwards, Inverted;
    if typesA * typesB == {} && op == And {
      ZipNothing(a, b, typesA, typesB);
      return [];
    }
    if typesA * typesB == {} && op == Sub {
      ZipNothing(a, b, typesA, typesB);
      z := AppendUpwards([], 0, |a|);
      assert z == Upwards(0, |a|);
      return;
    }
    var ap, bp: nat;
    z, ap, bp := MergeLoop(a, b, op);
    ZipTails(z, a, b, op, ap, bp);
    ghost var was := z;
    if Smaller(op).keepA {
      z := AppendUpwards(z, ap, |a|);
    }
    if Greater(op).keepB {
      z := AppendInverted(z, bp, |b|);
    }
    assert z == was + (if Smaller(op).keepA then Upwards(ap, |a|) else [])
                + (if Greater(op).keepB then Inverted(bp, |b|) else []);
    ZipIsZipper(a, b, op);
  }

  /** The zipper names exactly the elements that stay, each once. */
  ghost predicate IsZipper(a: seq<Value>, b: seq<Value>, op: Op, z: seq<int>) {
    && (forall y :: y in z ==> -|b| <= y < |a|)
    && Unique(z)
    && (forall i :: 0 <= i < |a| ==> (i in z <==> StaysA(op, Tally(a, 0, i, a[i]), Tally(b, 0, |b|, a[i]))))
    && (forall j :: 0 <= j < |b| ==> (Inv(j) in z <==> StaysB(op, Tally(b, 0, j, b[j]), Tally(a, 0, |a|, b[j]))))
  }

  lemma {:induction false} NoTally(s: seq<Value>, lo: nat, hi: nat, v: Value)
    requires hi <= |s| && forall j :: lo <= j < hi ==> s[j] != v
    ensures Tally(s, lo, hi, v) == 0
    decreases hi - lo
  {
    if lo < hi {
      NoTally(s, lo + 1, hi, v);
    }
  }

  lemma NothingShared(a: seq<Value>, b: seq<Value>, typesA: TypeField, typesB: TypeField)
    requires Covers(typesA, a) && Covers(typesB, b) && typesA * typesB == {}
    ensures forall i :: 0 <= i < |a| ==> Tally(b, 0, |b|, a[i]) == 0
    ensures forall j :: 0 <= j < |b| ==> Tally(a, 0, |a|, b[j]) == 0
  {
    assert forall i, j :: 0 <= i < |a| && 0 <= j < |b| ==> a[i] != b[j] by {
      forall i, j | 0 <= i < |a| && 0 <= j < |b| ensures a[i] != b[j] {
        assert Tag(a[i]) in typesA && Tag(b[j]) in typesB;
        assert Tag(a[i]) !in typesA * typesB;
      }
    }
    forall i | 0 <= i < |a| ensures Tally(b, 0, |b|, a[i]) == 0 {
      NoTally(b, 0, |b|, a[i]);
    }
    forall j | 0 <= j < |b| ensures Tally(a, 0, |a|, b[j]) == 0 {
      NoTally(a, 0, |a|, b[j]);
    }
  }

  /** Entries for elements of a[ap..] and b[bp..] only, each once. */
  ghost predicate InRange(z: seq<int>, ap: nat, an: nat, bp: nat, bn: nat) {
    Unique(z) && forall y :: y in z ==> if y >= 0 then ap <= y < an else bp <= -y - 1 < bn
  }

  lemma EmittedInRange(s: Step, rest: seq<int>, ap: nat, an: nat, bp: nat, bn: nat)
    requires ap < an && bp < bn && (s.keepA ==> s.skipA) && (s.keepB ==> s.skipB)
    requires InRange(rest, if s.skipA then ap + 1 else ap, an, if s.skipB then bp + 1 else bp, bn)
    ensures InRange(Emitted(s, ap, bp) + rest, ap, an, bp, bn)
  {
    var r := if s.keepB then [Inv(bp)] + rest else rest;
    if s.keepB {
      UniqueCons(Inv(bp), rest);
    }
    if s.keepA {
      UniqueCons(ap, r);
    }
    assert Emitted(s, ap, bp) + rest == (if s.keepA then [ap as int] else []) + r;
  }

  lemma {:induction false} ZipRange(a: seq<Value>, b: seq<Value>, op: Op, ap: nat, bp: nat)
    requires ap <= |a| && bp <= |b|
    ensures InRange(Zip(a, b, op, ap, bp), ap, |a|, bp, |b|)
    decreases |a| - ap + |b| - bp
  {
    if ap < |a| && bp < |b| {
      hide InRange, Cmp, Emitted;
      var s := StepAt(a[ap], b[bp], op);
      var ap', bp' := if s.skipA then ap + 1 else ap, if s.skipB then bp + 1 else bp;
      ZipRange(a, b, op, ap', bp');
      EmittedInRange(s, Zip(a, b, op, ap', bp'), ap, |a|, bp, |b|);
    }
  }

  lemma ZipNothing(a: seq<Value>, b: seq<Value>, typesA: TypeField, typesB: TypeField)
    requires Covers(typesA, a) && Covers(typesB, b) && typesA * typesB == {}
    ensures IsZipper(a, b, And, []) && IsZipper(a, b, Sub, Upwards(0, |a|))
  {
    NothingShared(a, b, typesA, typesB);
  }

  /** An element behind the front of a sorted array is not smaller than the front. */
  lemma NotInRest(s: seq<Value>, p: nat, v: Value)
    requires NonDescending(s) && p < |s| && Before(v, s[p])
    ensures Tally(s, p, |s|, v) == 0
  {
    forall j | p <= j < |s| ensures s[j] != v {
      Trichotomy(s[j], s[p]);
      Trichotomy(v, s[p]);
    }
    NoTally(s, p, |s|, v);
  }

  lemma {:induction false} ZipA(a: seq<Value>, b: seq<Value>, op: Op, ap: nat, bp: nat, i: nat)
    requires NonDescending(a) && NonDescending(b) && ap <= i < |a| && bp <= |b|
    ensures i in Zip(a, b, op, ap, bp) <==> StaysA(op, Tally(a, ap, i, a[i]), Tally(b, bp, |b|, a[i]))
    decreases |a| - ap + |b| - bp
  {
    hide Upwards, Inverted;
    ZipRange(a, b, op, ap, bp);
    if bp < |b| {
      var s := StepAt(a[ap], b[bp], op);
      var ap', bp' := if s.skipA then ap + 1 else ap, if s.skipB then bp + 1 else bp;
      ZipRange(a, b, op, ap', bp');
      Trichotomy(a[ap], b[bp]);
      if Before(a[ap], b[bp]) {
        NotInRest(b, bp, a[ap]);
      } else if Before(b[bp], a[ap]) {
        Trichotomy(a[i], b[bp]);
      }
      if ap' <= i {
        ZipA(a, b, op, ap', bp', i);
      }
    }
  }

  lemma {:induction false} ZipB(a: seq<Value>, b: seq<Value>, op: Op, ap: nat, bp: nat, j: nat)
    requires NonDescending(a) && NonDescending(b) && ap <= |a| && bp <= j < |b|
    ensures Inv(j) in Zip(a, b, op, ap, bp) <==> StaysB(op, Tally(b, bp, j, b[j]), Tally(a, ap, |a|, b[j]))
    decreases |a| - ap + |b| - bp
  {
    hide Upwards, Inverted;
    ZipRange(a, b, op, ap, bp);
    if ap < |a| {
      var s := StepAt(a[ap], b[bp], op);
      var ap', bp' := if s.skipA then ap + 1 else ap, if s.skipB then bp + 1 else bp;
      ZipRange(a, b, op, ap', bp');
      Trichotomy(a[ap], b[bp]);
      if Before(b[bp], a[ap]) {
        NotInRest(a, ap, b[bp]);
      } else if Before(a[ap], b[bp]) {
        Trichotomy(b[j], a[ap]);
      }
      if bp' <= j {
        ZipB(a, b, op, ap', bp', j);
      }
    }
  }

  lemma ZipIsZipper(a: seq<Value>, b: seq<Value>, op: Op)
    requires NonDescending(a) && NonDescending(b)
    ensures IsZipper(a, b, op, Zip(a, b, op, 0, 0))
  {
    hide Zip, NonDescending;
    ZipRange(a, b, op, 0, 0);
    forall i | 0 <= i < |a|
      ensures i in Zip(a, b, op, 0, 0) <==> StaysA(op, Tally(a, 0, i, a[i]), Tally(b, 0, |b|, a[i]))
    {
      ZipA(a, b, op, 0, 0, i);
    }
    forall j | 0 <= j < |b|
      ensures Inv(j) in Zip(a, b, op, 0, 0) <==> StaysB(op, Tally(b, 0, j, b[j]), Tally(a, 0, |a|, b[j]))
    {
      ZipB(a, b, op, 0, 0, j);
    }
  }
}
