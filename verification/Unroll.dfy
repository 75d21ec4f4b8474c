/** Copying recent code in front of a backward branch does not change what a program does. */
module Unroll {
  import opened Codegen
  import opened Basics

  /** The instructions of a[pos..], without its labels. */
  function Copy(a: seq<Instr>, pos: nat): (c: seq<Instr>)
    requires pos <= |a|
    ensures forall i :: i in c ==> !i.Label?
    decreases |a| - pos
  {
    if pos == |a| then []
    else if a[pos].Label? then Copy(a, pos + 1)
    else [a[pos]] + Copy(a, pos + 1)
  }

  /** Where the k-th copied instruction comes from. */
  function Orig(a: seq<Instr>, pos: nat, k: nat): (p: nat)
    requires pos <= |a| && k < |Copy(a, pos)|
    ensures pos <= p < |a| && a[p] == Copy(a, pos)[k] && !a[p].Label?
    decreases |a| - pos
  {
    if a[pos].Label? then Orig(a, pos + 1, k)
    else if k == 0 then pos
    else Orig(a, pos + 1, k - 1)
  }

  /** Between two copied instructions, before the first and after the last there are only labels. */
  lemma {:induction false} OnlyLabels(a: seq<Instr>, pos: nat, k: nat)
    requires pos <= |a| && k <= |Copy(a, pos)|
    ensures var lo := if k == 0 then pos else Orig(a, pos, k - 1) + 1;
            var hi := if k == |Copy(a, pos)| then |a| else Orig(a, pos, k);
            lo <= hi && forall i :: lo <= i < hi ==> a[i].Label?
    decreases |a| - pos
  {
    if pos < |a| {
      if a[pos].Label? {
        OnlyLabels(a, pos + 1, k);
      } else if k > 0 {
        OnlyLabels(a, pos + 1, k - 1);
      }
    }
  }

  /** The program as first emitted: code a, the branch, and whatever follows. */
  function Plain(a: seq<Instr>, lbl: nat, d: seq<Instr>): seq<Instr> {
    a + [Branch(lbl)] + d
  }

  /** The program with the code from pos on copied before the branch. */
  function Unrolled(a: seq<Instr>, pos: nat, lbl: nat, d: seq<Instr>): seq<Instr>
    requires pos <= |a|
  {
    a + Copy(a, pos) + [Branch(lbl)] + d
  }

  /** The place in the plain program that place u of the unrolled one stands for. */
  function Place(a: seq<Instr>, pos: nat, u: int): int
    requires pos <= |a|
  {
    var n := |Copy(a, pos)|;
    if |a| <= u < |a| + n then Orig(a, pos, u - |a|)
    else if u < |a| then u
    else u - n
  }

  ghost predicate Setting(a: seq<Instr>, pos: nat, lbl: nat, d: seq<Instr>) {
    pos < |a| && a[pos] == Label(lbl) && UniqueLabels(Plain(a, lbl, d))
  }

  lemma SameInstr(a: seq<Instr>, pos: nat, lbl: nat, d: seq<Instr>, u: nat)
    requires Setting(a, pos, lbl, d) && u < |Unrolled(a, pos, lbl, d)|
    ensures var p := Place(a, pos, u);
            0 <= p < |Plain(a, lbl, d)| && Plain(a, lbl, d)[p] == Unrolled(a, pos, lbl, d)[u]
  {
  }

  /** Labels stay where they are, up to the shift of what follows the branch. */
  lemma SameLabel(a: seq<Instr>, pos: nat, lbl: nat, d: seq<Instr>, l: nat)
    requires Setting(a, pos, lbl, d)
    ensures var q := LabelPos(Unrolled(a, pos, lbl, d), l);
            LabelPos(Plain(a, lbl, d), l) == if q < 0 then -1 else Place(a, pos, q)
  {
    var P, U := Plain(a, lbl, d), Unrolled(a, pos, lbl, d);
    var q := LabelPos(U, l);
    if q >= 0 {
      SameInstr(a, pos, lbl, d, q);
      LabelIsAt(P, Place(a, pos, q));
    }
    var n := |Copy(a, pos)|;
    forall p | 0 <= p < |P| && P[p].Label? ensures P[p] in U {
      assert U[if p < |a| then p else p + n] == P[p];
    }
  }

  // ---- Quiet steps: labels and branches only ----

  /** From place p to place q without touching stack or trace, in j steps, none of them from beyond `top`. */
  ghost predicate Quiet(prog: seq<Instr>, val: Oracle, top: nat, p: int, q: int, stack: seq<int>, w: Trace, j: nat) {
    && Run(prog, val, State(p, stack, w), j) == Some(State(q, stack, w))
    && forall i :: 0 <= i <= j ==>
         var r := Run(prog, val, State(p, stack, w), i);
         r.Some? && r.value.stack == stack && r.value.w == w && (i < j ==> r.value.pc <= top)
  }

  lemma QuietSelf(prog: seq<Instr>, val: Oracle, top: nat, p: int, stack: seq<int>, w: Trace)
    ensures Quiet(prog, val, top, p, p, stack, w, 0)
  {
  }

  lemma QuietArrives(prog: seq<Instr>, val: Oracle, top: nat, p: int, q: int, stack: seq<int>, w: Trace, j: nat)
    requires Quiet(prog, val, top, p, q, stack, w, j)
    ensures Run(prog, val, State(p, stack, w), j) == Some(State(q, stack, w))
  {
  }

  /** One quiet step in front of others. */
  lemma QuietStep(prog: seq<Instr>, val: Oracle, top: nat, p: int, p': int, q: int, stack: seq<int>, w: Trace, j: nat)
    requires Step(prog, val, State(p, stack, w)) == Some(State(p', stack, w)) && p <= top
    requires Quiet(prog, val, top, p', q, stack, w, j)
    ensures Quiet(prog, val, top, p, q, stack, w, j + 1)
  {
    forall i | 0 <= i <= j + 1
      ensures var r := Run(prog, val, State(p, stack, w), i);
              r.Some? && r.value.stack == stack && r.value.w == w && (i < j + 1 ==> r.value.pc <= top)
    {
      if i > 0 {
        assert Run(prog, val, State(p, stack, w), i) == Run(prog, val, State(p', stack, w), i - 1);
      }
    }
  }

  lemma {:induction false} QuietLabels(prog: seq<Instr>, val: Oracle, top: nat, p: nat, q: nat, stack: seq<int>,
                                       w: Trace)
    requires p <= q <= |prog| && q <= top && forall i :: p <= i < q ==> prog[i].Label?
    ensures Quiet(prog, val, top, p, q, stack, w, q - p)
    decreases q - p
  {
    if p == q {
      QuietSelf(prog, val, top, p, stack, w);
    } else {
      QuietLabels(prog, val, top, p + 1, q, stack, w);
      QuietStep(prog, val, top, p, p + 1, q, stack, w, q - p - 1);
    }
  }

  /** Having fallen through from u, the plain program quietly arrives where u+1 stands for. */
  lemma FallArrives(a: seq<Instr>, pos: nat, lbl: nat, d: seq<Instr>, val: Oracle, u: nat, stack: seq<int>, w: Trace)
    returns (j: nat)
    requires Setting(a, pos, lbl, d) && u < |Unrolled(a, pos, lbl, d)|
    ensures Quiet(Plain(a, lbl, d), val, |a|, Place(a, pos, u) + 1, Place(a, pos, u + 1), stack, w, j)
  {
    hide Quiet;
    var P := Plain(a, lbl, d);
    var n := |Copy(a, pos)|;
    if |a| <= u < |a| + n {
      var k := u - |a|;
      OnlyLabels(a, pos, k + 1);
      var hi := if k + 1 == n then |a| else Orig(a, pos, k + 1);
      QuietLabels(P, val, |a|, Orig(a, pos, k) + 1, hi, stack, w);
      j := hi - (Orig(a, pos, k) + 1);
    } else if u + 1 == |a| && n > 0 {
      j := BranchArrives(a, pos, lbl, d, val, stack, w);
    } else {
      QuietSelf(P, val, |a|, Place(a, pos, u) + 1, stack, w);
      j := 0;
    }
  }

  /** At the branch, the plain program quietly goes round to the first copied instruction. */
  lemma BranchArrives(a: seq<Instr>, pos: nat, lbl: nat, d: seq<Instr>, val: Oracle, stack: seq<int>, w: Trace)
    returns (j: nat)
    requires Setting(a, pos, lbl, d)
    ensures Quiet(Plain(a, lbl, d), val, |a|, |a|, Place(a, pos, |a|), stack, w, j)
  {
    var P := Plain(a, lbl, d);
    if |Copy(a, pos)| == 0 {
      QuietSelf(P, val, |a|, |a|, stack, w);
      j := 0;
    } else {
      OnlyLabels(a, pos, 0);
      var hi := Orig(a, pos, 0);
      QuietLabels(P, val, |a|, pos, hi, stack, w);
      assert P[pos] == Label(lbl);
      LabelIsAt(P, pos);
      QuietStep(P, val, |a|, |a|, pos, hi, stack, w, hi - pos);
      j := hi - pos + 1;
    }
  }

  // ---- Both programs do the same ----

  /** One step of the unrolled program is one step of the plain one and some quiet ones. */
  lemma StepMatches(a: seq<Instr>, pos: nat, lbl: nat, d: seq<Instr>, val: Oracle, u: int, stack: seq<int>, w: Trace)
    returns (j: nat)
    requires Setting(a, pos, lbl, d)
    ensures var P, U := Plain(a, lbl, d), Unrolled(a, pos, lbl, d);
            var su, sp := Step(U, val, State(u, stack, w)), Step(P, val, State(Place(a, pos, u), stack, w));
            && su.Some? == sp.Some?
            && (su.Some? ==> su.value.stack == sp.value.stack && su.value.w == sp.value.w &&
                             Quiet(P, val, |a|, sp.value.pc, Place(a, pos, su.value.pc), su.value.stack, su.value.w, j))
  {
    hide Quiet;
    var P, U := Plain(a, lbl, d), Unrolled(a, pos, lbl, d);
    j := 0;
    if 0 <= u < |U| {
      SameInstr(a, pos, lbl, d, u);
      match Act(U[u], val, stack, w)
      case Stuck =>
      case Fall(st, x) =>
        j := FallArrives(a, pos, lbl, d, val, u, st, x);
      case JumpTo(l, st, x) =>
        SameLabel(a, pos, lbl, d, l);
        QuietSelf(P, val, |a|, LabelPos(P, l), st, x);
    } else {
      assert !(0 <= Place(a, pos, u) < |P|);
    }
  }

  /** Whatever the unrolled program reaches, the plain one reaches at the matching place. */
  lemma {:induction false} Forward(a: seq<Instr>, pos: nat, lbl: nat, d: seq<Instr>, val: Oracle,
                                   u: int, stack: seq<int>, w: Trace, n: nat)
    returns (k: nat)
    requires Setting(a, pos, lbl, d) && Run(Unrolled(a, pos, lbl, d), val, State(u, stack, w), n).Some?
    ensures var t := Run(Unrolled(a, pos, lbl, d), val, State(u, stack, w), n).value;
            Run(Plain(a, lbl, d), val, State(Place(a, pos, u), stack, w), k) == Some(t.(pc := Place(a, pos, t.pc)))
    decreases n
  {
    EndPlace(a, pos, lbl, d, u);
    hide Setting, Plain, Unrolled, Place, Quiet;
    var P, U := Plain(a, lbl, d), Unrolled(a, pos, lbl, d);
    k := 0;
    if n > 0 {
      var s := State(Place(a, pos, u), stack, w);
      var j := StepMatches(a, pos, lbl, d, val, u, stack, w);
      var su := Step(U, val, State(u, stack, w)).value;
      var i := Forward(a, pos, lbl, d, val, su.pc, su.stack, su.w, n - 1);
      var sp := Step(P, val, s).value;
      QuietArrives(P, val, |a|, sp.pc, Place(a, pos, su.pc), sp.stack, sp.w, j);
      RunCompose(P, val, sp, j, i);
      k := 1 + j + i;
    }
  }

  /** What is left of a quiet stretch after i steps. */
  lemma QuietRest(prog: seq<Instr>, val: Oracle, top: nat, p: int, q: int, stack: seq<int>, w: Trace, j: nat, i: nat)
    requires Quiet(prog, val, top, p, q, stack, w, j) && i <= j
    ensures var r := Run(prog, val, State(p, stack, w), i);
      && r.Some? && r.value == State(r.value.pc, stack, w) && (i < j ==> r.value.pc <= top)
      && Quiet(prog, val, top, r.value.pc, q, stack, w, j - i)
  {
    var m := Run(prog, val, State(p, stack, w), i).value;
    RunCompose(prog, val, State(p, stack, w), i, j - i);
    forall k | 0 <= k <= j - i
      ensures var r := Run(prog, val, m, k);
              r.Some? && r.value.stack == stack && r.value.w == w && (k < j - i ==> r.value.pc <= top)
    {
      RunCompose(prog, val, State(p, stack, w), i, k);
    }
  }

  lemma RunBeyond(prog: seq<Instr>, val: Oracle, s: State, n: nat, k: nat)
    requires n < k && Run(prog, val, s, n).Some? && Run(prog, val, s, k).Some?
    ensures Step(prog, val, Run(prog, val, s, n).value).Some?
  {
    RunCompose(prog, val, s, n, k - n);
  }

  lemma EndPlace(a: seq<Instr>, pos: nat, lbl: nat, d: seq<Instr>, u: int)
    requires Setting(a, pos, lbl, d)
    ensures Place(a, pos, u) == |Plain(a, lbl, d)| <==> u == |Unrolled(a, pos, lbl, d)|
    ensures pos <= |a|
  {
  }

  lemma EndStops(prog: seq<Instr>, val: Oracle, s: State)
    requires s.pc == |prog|
    ensures Step(prog, val, s).None?
  {
  }

  /** Whatever the plain program reaches, from there it quietly arrives at a place that the unrolled one
      reaches too; right there, behind the branch. */
  lemma {:induction false} Backward(a: seq<Instr>, pos: nat, lbl: nat, d: seq<Instr>, val: Oracle,
                                    u: int, stack: seq<int>, w: Trace, k: nat)
    returns (n: nat, i: nat)
    requires Setting(a, pos, lbl, d) && Run(Plain(a, lbl, d), val, State(Place(a, pos, u), stack, w), k).Some?
    ensures var t := Run(Plain(a, lbl, d), val, State(Place(a, pos, u), stack, w), k).value;
            var r := Run(Unrolled(a, pos, lbl, d), val, State(u, stack, w), n);
            && r.Some? && r.value.stack == t.stack && r.value.w == t.w
            && Quiet(Plain(a, lbl, d), val, |a|, t.pc, Place(a, pos, r.value.pc), t.stack, t.w, i)
            && (t.pc > |a| ==> Place(a, pos, r.value.pc) == t.pc)
    decreases k
  {
    hide Step;
    hide LabelPos;
    hide Setting;
    hide Place;
    hide Quiet;
    EndPlace(a, pos, lbl, d, u);
    var P, U := Plain(a, lbl, d), Unrolled(a, pos, lbl, d);
    n, i := 0, 0;
    if k == 0 {
      QuietSelf(P, val, |a|, Place(a, pos, u), stack, w);
    } else {
      var s := State(Place(a, pos, u), stack, w);
      var j := StepMatches(a, pos, lbl, d, val, u, stack, w);
      var sp := Step(P, val, s).value;
      var su := Step(U, val, State(u, stack, w)).value;
      if k - 1 <= j {
        n, i := 1, j - (k - 1);
        QuietRest(P, val, |a|, sp.pc, Place(a, pos, su.pc), sp.stack, sp.w, j, k - 1);
        QuietEnds(P, val, |a|, sp.pc, Place(a, pos, su.pc), sp.stack, sp.w, j);
      } else {
        QuietArrives(P, val, |a|, sp.pc, Place(a, pos, su.pc), sp.stack, sp.w, j);
        RunCompose(P, val, sp, j, k - 1 - j);
        var m;
        m, i := Backward(a, pos, lbl, d, val, su.pc, su.stack, su.w, k - 1 - j);
        n := 1 + m;
      }
    }
  }

  lemma QuietEnds(prog: seq<Instr>, val: Oracle, top: nat, p: int, q: int, stack: seq<int>, w: Trace, j: nat)
    requires Quiet(prog, val, top, p, q, stack, w, j)
    ensures var r := Run(prog, val, State(p, stack, w), j); r == Some(State(q, stack, w))
  {
  }

  /** Run from s, the program shows this stack and trace at some point -- at its end, if `ended`. */
  ghost predicate Shows(prog: seq<Instr>, val: Oracle, s: State, stack: seq<int>, w: Trace, ended: bool) {
    exists k: nat :: ShowsAt(prog, val, s, stack, w, ended, k)
  }

  ghost predicate ShowsAt(prog: seq<Instr>, val: Oracle, s: State, stack: seq<int>, w: Trace, ended: bool, k: nat) {
    var r := Run(prog, val, s, k);
    r.Some? && r.value.stack == stack && r.value.w == w && (ended ==> r.value.pc == |prog|)
  }

  /** Started at any place up to `upto`, both programs show the same stacks and traces, and end
      with the same ones. */
  ghost predicate SameMeaning(p: seq<Instr>, q: seq<Instr>, upto: nat) {
    forall val: Oracle, s: State, stack, w, ended | 0 <= s.pc <= upto ::
      Shows(p, val, s, stack, w, ended) <==> Shows(q, val, s, stack, w, ended)
  }

  /** At the end of a the plain program may first have to go round. */
  lemma StartArrives(a: seq<Instr>, pos: nat, lbl: nat, d: seq<Instr>, val: Oracle, s: State) returns (j: nat)
    requires Setting(a, pos, lbl, d) && 0 <= s.pc <= |a|
    ensures Quiet(Plain(a, lbl, d), val, |a|, s.pc, Place(a, pos, s.pc), s.stack, s.w, j)
  {
    if s.pc == |a| {
      j := BranchArrives(a, pos, lbl, d, val, s.stack, s.w);
    } else {
      QuietSelf(Plain(a, lbl, d), val, |a|, s.pc, s.stack, s.w);
      j := 0;
    }
  }

  /** Quiet steps add nothing to what is shown. */
  lemma QuietShows(prog: seq<Instr>, val: Oracle, top: nat, p: int, q: int, stack: seq<int>, w: Trace, j: nat,
                   stack': seq<int>, w': Trace, ended: bool)
    requires Quiet(prog, val, top, p, q, stack, w, j)
    ensures Shows(prog, val, State(p, stack, w), stack', w', ended) <==>
            Shows(prog, val, State(q, stack, w), stack', w', ended)
  {
    var s, r := State(p, stack, w), State(q, stack, w);
    if Shows(prog, val, s, stack', w', ended) {
      var k: nat :| ShowsAt(prog, val, s, stack', w', ended, k);
      if k < j {
        if ended {
          EndStops(prog, val, Run(prog, val, s, k).value);
          RunBeyond(prog, val, s, k, j);
        }
        assert ShowsAt(prog, val, r, stack', w', ended, 0);
      } else {
        RunCompose(prog, val, s, j, k - j);
        assert ShowsAt(prog, val, r, stack', w', ended, k - j);
      }
    }
    if Shows(prog, val, r, stack', w', ended) {
      var k: nat :| ShowsAt(prog, val, r, stack', w', ended, k);
      RunCompose(prog, val, s, j, k);
      assert ShowsAt(prog, val, s, stack', w', ended, j + k);
    }
  }

  /** The unrolled program shows from place u what the plain one does from the place u stands for. */
  lemma PlaceShows(a: seq<Instr>, pos: nat, lbl: nat, d: seq<Instr>, val: Oracle, u: int, stack: seq<int>, w: Trace,
                   stack': seq<int>, w': Trace, ended: bool)
    requires Setting(a, pos, lbl, d)
    ensures pos <= |a|
    ensures Shows(Plain(a, lbl, d), val, State(Place(a, pos, u), stack, w), stack', w', ended)
            <==> Shows(Unrolled(a, pos, lbl, d), val, State(u, stack, w), stack', w', ended)
  {
    var P, U, s, r := Plain(a, lbl, d), Unrolled(a, pos, lbl, d), State(Place(a, pos, u), stack, w), State(u, stack, w);
    if Shows(U, val, r, stack', w', ended) {
      var n: nat :| ShowsAt(U, val, r, stack', w', ended, n);
      var k := Forward(a, pos, lbl, d, val, u, stack, w, n);
      EndPlace(a, pos, lbl, d, Run(U, val, r, n).value.pc);
      assert ShowsAt(P, val, s, stack', w', ended, k);
    }
    if Shows(P, val, s, stack', w', ended) {
      var k: nat :| ShowsAt(P, val, s, stack', w', ended, k);
      var n, i := Backward(a, pos, lbl, d, val, u, stack, w, k);
      EndPlace(a, pos, lbl, d, Run(U, val, r, n).value.pc);
      assert ShowsAt(U, val, r, stack', w', ended, n);
    }
  }

  /** From s in p and from t in q the same is shown. */
  ghost predicate SameFrom(p: seq<Instr>, val: Oracle, s: State, q: seq<Instr>, t: State) {
    && s.stack == t.stack && s.w == t.w
    && forall stack, w, ended :: Shows(p, val, s, stack, w, ended) <==> Shows(q, val, t, stack, w, ended)
  }

  /** q reaches, for every state that p reaches, one from which it shows the same; if that is within the last
      `tail` places, at the same distance from the end. */
  ghost predicate Tracks(p: seq<Instr>, q: seq<Instr>, upto: nat, tail: nat) {
    forall val: Oracle, s: State, t: State | 0 <= s.pc <= upto && Goes(p, val, s, t) :: Tracked(p, q, tail, val, s, t)
  }

  ghost predicate Tracked(p: seq<Instr>, q: seq<Instr>, tail: nat, val: Oracle, s: State, t: State) {
    exists r :: Goes(q, val, s, r) && SameFrom(p, val, t, q, r) && (|p| - t.pc <= tail ==> |q| - r.pc == |p| - t.pc)
  }

  /** The unrolled program tracks the plain one. */
  lemma UnrollTracks(a: seq<Instr>, pos: nat, lbl: nat, d: seq<Instr>)
    requires Setting(a, pos, lbl, d)
    ensures Tracks(Plain(a, lbl, d), Unrolled(a, pos, lbl, d), |a|, |d|)
  {
    var P, U := Plain(a, lbl, d), Unrolled(a, pos, lbl, d);
    forall val: Oracle, s: State, t: State | 0 <= s.pc <= |a| && Goes(P, val, s, t)
      ensures Tracked(P, U, |d|, val, s, t)
    {
      var k: nat :| Run(P, val, s, k) == Some(t);
      UnrollTracked(a, pos, lbl, d, val, s, t, k);
    }
  }

  lemma UnrollTracked(a: seq<Instr>, pos: nat, lbl: nat, d: seq<Instr>, val: Oracle, s: State, t: State, k: nat)
    requires Setting(a, pos, lbl, d) && 0 <= s.pc <= |a| && Run(Plain(a, lbl, d), val, s, k) == Some(t)
    ensures Tracked(Plain(a, lbl, d), Unrolled(a, pos, lbl, d), |d|, val, s, t)
  {
    TailPlace(a, pos, lbl, d, s.pc);
    hide Quiet, Place, SameFrom, Setting, Plain, Unrolled, Step, Tracked;
    var P, U := Plain(a, lbl, d), Unrolled(a, pos, lbl, d);
    var j := StartArrives(a, pos, lbl, d, val, s);
    var r, i, n := s, 0, 0;
    if k <= j {
      QuietRest(P, val, |a|, s.pc, Place(a, pos, s.pc), s.stack, s.w, j, k);
      QuietArrives(P, val, |a|, s.pc, Place(a, pos, s.pc), s.stack, s.w, j);
      i := j - k;
    } else {
      QuietArrives(P, val, |a|, s.pc, Place(a, pos, s.pc), s.stack, s.w, j);
      RunCompose(P, val, s, j, k - j);
      n, i := Backward(a, pos, lbl, d, val, s.pc, s.stack, s.w, k - j);
      r := Run(U, val, s, n).value;
    }
    MatchTracked(a, pos, lbl, d, val, s, t, r, i, n);
  }

  /** The place that t leads to quietly is the one tracked. */
  lemma MatchTracked(a: seq<Instr>, pos: nat, lbl: nat, d: seq<Instr>, val: Oracle, s: State, t: State, r: State,
                     i: nat, n: nat)
    requires Setting(a, pos, lbl, d) && Run(Unrolled(a, pos, lbl, d), val, s, n) == Some(r)
    requires t.stack == r.stack && t.w == r.w && (t.pc > |a| ==> Place(a, pos, r.pc) == t.pc)
    requires Quiet(Plain(a, lbl, d), val, |a|, t.pc, Place(a, pos, r.pc), t.stack, t.w, i)
    ensures Tracked(Plain(a, lbl, d), Unrolled(a, pos, lbl, d), |d|, val, s, t)
  {
    SameFromPlace(a, pos, lbl, d, val, t, r, i);
    TailPlace(a, pos, lbl, d, r.pc);
    hide Quiet, Place, SameFrom, Setting, Plain, Unrolled;
    assert Goes(Unrolled(a, pos, lbl, d), val, s, r);
  }

  lemma TailPlace(a: seq<Instr>, pos: nat, lbl: nat, d: seq<Instr>, u: int)
    requires Setting(a, pos, lbl, d)
    ensures pos <= |a| && (u <= |a| ==> Place(a, pos, u) <= |a|)
    ensures var P, U := Plain(a, lbl, d), Unrolled(a, pos, lbl, d);
      && |P| == |a| + 1 + |d|
      && (Place(a, pos, u) > |a| ==> |U| - u == |P| - Place(a, pos, u))
  {
  }

  lemma SameFromPlace(a: seq<Instr>, pos: nat, lbl: nat, d: seq<Instr>, val: Oracle, t: State, r: State, i: nat)
    requires Setting(a, pos, lbl, d) && t.stack == r.stack && t.w == r.w
    requires Quiet(Plain(a, lbl, d), val, |a|, t.pc, Place(a, pos, r.pc), t.stack, t.w, i)
    ensures SameFrom(Plain(a, lbl, d), val, t, Unrolled(a, pos, lbl, d), r)
  {
    var P, U := Plain(a, lbl, d), Unrolled(a, pos, lbl, d);
    hide Quiet, Place, Shows, Setting, Plain, Unrolled;
    forall stack, w, ended ensures Shows(P, val, t, stack, w, ended) <==> Shows(U, val, r, stack, w, ended) {
      QuietShows(P, val, |a|, t.pc, Place(a, pos, r.pc), t.stack, t.w, i, stack, w, ended);
      PlaceShows(a, pos, lbl, d, val, r.pc, r.stack, r.w, stack, w, ended);
    }
  }

  /** Unrolling keeps the meaning, whatever code follows. */
  lemma UnrollKeepsMeaning(a: seq<Instr>, pos: nat, lbl: nat, d: seq<Instr>)
    requires Setting(a, pos, lbl, d)
    ensures SameMeaning(Plain(a, lbl, d), Unrolled(a, pos, lbl, d), |a|)
  {
    forall val: Oracle, s: State, stack, w, ended | 0 <= s.pc <= |a|
      ensures Shows(Plain(a, lbl, d), val, s, stack, w, ended) <==>
              Shows(Unrolled(a, pos, lbl, d), val, s, stack, w, ended)
    {
      var j := StartArrives(a, pos, lbl, d, val, s);
      SameFromPlace(a, pos, lbl, d, val, s, s, j);
    }
  }

  /** Copying brings no label twice. */
  lemma UnrolledUnique(a: seq<Instr>, pos: nat, lbl: nat, d: seq<Instr>)
    requires Setting(a, pos, lbl, d)
    ensures UniqueLabels(Unrolled(a, pos, lbl, d))
  {
    var P, U, n := Plain(a, lbl, d), Unrolled(a, pos, lbl, d), |Copy(a, pos)|;
    forall k | |a| <= k < |a| + n ensures !U[k].Label? {
      assert U[k] == Copy(a, pos)[k - |a|];
    }
    forall i, j | 0 <= i < j < |U| && U[i].Label? && U[j].Label? ensures U[i] != U[j] {
      assert U[i] == P[Place(a, pos, i)] && U[j] == P[Place(a, pos, j)];
    }
  }
}
