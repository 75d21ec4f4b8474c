/** Short-circuit conditions compiled to jumps, for a small stack machine. */
module Codegen {

  import opened Basics

  // ---- Source ----

  /** Expression trees.  A leaf is any expression this model does not look into; a constant is an
      expression without effects whose truth is known. */
  datatype Node = Leaf(id: nat) | Const(v: int) | Land(l: Node, r: Node) | Lor(l: Node, r: Node) | Not(e: Node)

  /** The leaves evaluated so far, in order. */
  type Trace = seq<nat>

  /** The value of a leaf may depend on everything evaluated before it. */
  type Oracle = (nat, Trace) -> int

  datatype Result = Result(v: int, w: Trace)

  function Eval(t: Node, val: Oracle, w: Trace): Result {
    match t
    case Leaf(id) => Result(val(id, w), w + [id])
    case Const(v) => Result(v, w)
    case Land(l, r) => var a := Eval(l, val, w); if a.v == 0 then a else Eval(r, val, a.w)
    case Lor(l, r) => var a := Eval(l, val, w); if a.v != 0 then a else Eval(r, val, a.w)
    case Not(e) => var a := Eval(e, val, w); Result(if a.v == 0 then 1 else 0, a.w)
  }

  // ---- Target ----

  datatype Instr =
    | Do(id: nat)                  // evaluate a leaf and push its value
    | Push(v: int)
    | NotOp
    | Pop
    | BranchWhenNonZero(lbl: nat)  // pop, and branch when the value was not zero
    | BranchWhenZero(lbl: nat)
    | LorBranch(lbl: nat)          // branch and keep the value when it is not zero, else pop it
    | LandBranch(lbl: nat)
    | Branch(lbl: nat)
    | Label(lbl: nat)

  datatype State = State(pc: int, stack: seq<int>, w: Trace)

  /** Position of the label, -1 when it has not been placed. */
  function LabelPos(code: seq<Instr>, l: nat): (p: int)
    ensures -1 <= p < |code| && (p >= 0 ==> code[p] == Label(l))
    ensures p == -1 <==> Label(l) !in code
  {
    if code == [] then -1
    else if code[0] == Label(l) then 0
    else var p := LabelPos(code[1..], l); if p < 0 then -1 else p + 1
  }

  /** What an instruction does: fall through, or branch to a label, with this stack and trace. */
  datatype Effect = Stuck | Fall(stack: seq<int>, w: Trace) | JumpTo(lbl: nat, stack: seq<int>, w: Trace)

  function Act(i: Instr, val: Oracle, stack: seq<int>, w: Trace): Effect {
    match i
    case Do(id) => Fall(stack + [val(id, w)], w + [id])
    case Push(v) => Fall(stack + [v], w)
    case Label(_) => Fall(stack, w)
    case Branch(l) => JumpTo(l, stack, w)
    case _ =>
      if stack == [] then Stuck
      else
        var top, rest := stack[|stack| - 1], stack[..|stack| - 1];
        match i
        case NotOp => Fall(rest + [if top == 0 then 1 else 0], w)
        case BranchWhenNonZero(l) => if top != 0 then JumpTo(l, rest, w) else Fall(rest, w)
        case BranchWhenZero(l) => if top == 0 then JumpTo(l, rest, w) else Fall(rest, w)
        case LorBranch(l) => if top != 0 then JumpTo(l, stack, w) else Fall(rest, w)
        case LandBranch(l) => if top == 0 then JumpTo(l, stack, w) else Fall(rest, w)
        case _ => Fall(rest, w)
  }

  /** One step; None when the program has ended or cannot go on. */
  function Step(code: seq<Instr>, val: Oracle, s: State): Option<State> {
    if !(0 <= s.pc < |code|) then None
    else
      match Act(code[s.pc], val, s.stack, s.w)
      case Stuck => None
      case Fall(stack, w) => Some(State(s.pc + 1, stack, w))
      case JumpTo(l, stack, w) =>
        if LabelPos(code, l) < 0 then None else Some(State(LabelPos(code, l), stack, w))
  }

  function Run(code: seq<Instr>, val: Oracle, s: State, n: nat): Option<State>
    decreases n
  {
    if n == 0 then Some(s)
    else match Step(code, val, s) case None => None case Some(t) => Run(code, val, t, n - 1)
  }

  lemma {:induction false} RunCompose(code: seq<Instr>, val: Oracle, s: State, m: nat, n: nat)
    requires Run(code, val, s, m).Some?
    ensures Run(code, val, s, m + n) == Run(code, val, Run(code, val, s, m).value, n)
    decreases m
  {
    if m > 0 {
      RunCompose(code, val, Step(code, val, s).value, m - 1, n);
    }
  }

  /** No label is placed twice. */
  ghost predicate UniqueLabels(code: seq<Instr>) {
    forall i, j :: 0 <= i < j < |code| && code[i].Label? && code[j].Label? ==> code[i] != code[j]
  }

  lemma LabelIsAt(code: seq<Instr>, p: nat)
    requires UniqueLabels(code) && p < |code| && code[p].Label?
    ensures LabelPos(code, code[p].lbl) == p
  {
  }

  // ---- The code each node gets; n is the last label given out ----

  /** Code and the last label given out after it. */
  type Code = (seq<Instr>, nat)

  /** Jump to dest when the truth of t is iftrue.  With pop the value is always consumed; without,
      it stays on the stack when the jump is taken. */
  function CondJump(t: Node, dest: nat, iftrue: bool, pop: bool, n: nat): (c: Code)
    ensures c.1 >= n
    decreases t, 1
  {
    if t.Const? && pop then
      (if (t.v != 0) == iftrue then [Branch(dest)] else [], n)
    else if t.Land? || t.Lor? then
      if iftrue == t.Land? then
        var tmp := n + 1;
        var a := CondJump(t.l, tmp, !iftrue, true, tmp);
        var b := CondJump(t.r, dest, iftrue, pop, a.1);
        (a.0 + b.0 + [Label(tmp)], b.1)
      else
        var a := CondJump(t.l, dest, iftrue, pop, n);
        var b := CondJump(t.r, dest, iftrue, pop, a.1);
        (a.0 + b.0, b.1)
    else if t.Not? && pop then
      CondJump(t.e, dest, !iftrue, pop, n)
    else
      var a := Value(t, n);
      (a.0 + [Test(dest, iftrue, pop)], a.1)
  }

  function Test(dest: nat, iftrue: bool, pop: bool): Instr {
    if pop then if iftrue then BranchWhenNonZero(dest) else BranchWhenZero(dest)
    else if iftrue then LorBranch(dest) else LandBranch(dest)
  }

  /** Leave the value of t on the stack. */
  function Value(t: Node, n: nat): (c: Code)
    ensures c.1 >= n
    decreases t, 0
  {
    match t
    case Leaf(id) => ([Do(id)], n)
    case Const(v) => ([Push(v)], n)
    case Not(e) => var a := Value(e, n); (a.0 + [NotOp], a.1)
    case _ =>
      var tmp := n + 1;
      var a := CondJump(t.l, tmp, t.Lor?, false, tmp);
      var b := Value(t.r, a.1);
      (a.0 + b.0 + [Label(tmp)], b.1)
  }

  /** Evaluate t for its effects only. */
  function Block(t: Node, n: nat): (c: Code)
    ensures c.1 >= n
  {
    if t.Land? || t.Lor? then
      var tmp := n + 1;
      var a := CondJump(t.l, tmp, t.Lor?, true, tmp);
      var b := Block(t.r, a.1);
      (a.0 + b.0 + [Label(tmp)], b.1)
    else
      var a := Value(t, n);
      (a.0 + [Pop], a.1)
  }

  /** The instructions of the smallest conditions, written out. */
  lemma SmallConditions(x: nat, y: nat, dest: nat, n: nat)
    ensures var a, b := Leaf(x), Leaf(y);
      && CondJump(a, dest, true, true, n).0 == [Do(x), BranchWhenNonZero(dest)]
      && CondJump(Not(a), dest, true, true, n).0 == [Do(x), BranchWhenZero(dest)]
      && CondJump(Land(a, b), dest, false, true, n).0 == [Do(x), BranchWhenZero(dest), Do(y), BranchWhenZero(dest)]
      && CondJump(Lor(a, b), dest, true, true, n).0 ==
           [Do(x), BranchWhenNonZero(dest), Do(y), BranchWhenNonZero(dest)]
      && CondJump(Land(a, b), dest, true, true, n).0 ==
           [Do(x), BranchWhenZero(n + 1), Do(y), BranchWhenNonZero(dest), Label(n + 1)]
      && Value(Land(a, b), n).0 == [Do(x), LandBranch(n + 1), Do(y), Label(n + 1)]
      && Value(Lor(a, b), n).0 == [Do(x), LorBranch(n + 1), Do(y), Label(n + 1)]
  {
    var a, b := Leaf(x), Leaf(y);
    LeafJump(x, dest, true, true, n);
    LeafJump(x, dest, false, true, n);
    LeafJump(y, dest, false, true, n);
    LeafJump(y, dest, true, true, n);
    LeafJump(x, n + 1, false, true, n + 1);
    LeafJump(y, dest, true, true, n + 1);
    LeafJump(x, n + 1, false, false, n + 1);
    LeafJump(x, n + 1, true, false, n + 1);
    assert Value(b, n + 1) == ([Do(y)], n + 1);
    assert CondJump(Not(a), dest, true, true, n) == CondJump(a, dest, false, true, n);
  }

  lemma LeafJump(x: nat, dest: nat, iftrue: bool, pop: bool, n: nat)
    ensures CondJump(Leaf(x), dest, iftrue, pop, n) == ([Do(x), Test(dest, iftrue, pop)], n)
  {
    assert Value(Leaf(x), n) == ([Do(x)], n);
    assert [Do(x)] + [Test(dest, iftrue, pop)] == [Do(x), Test(dest, iftrue, pop)];
  }

  // ---- Correctness ----

  /** code stands in prog from position `at` on. */
  ghost predicate Placed(prog: seq<Instr>, at: nat, code: seq<Instr>) {
    at + |code| <= |prog| && prog[at..at + |code|] == code
  }

  lemma PlacedParts(prog: seq<Instr>, at: nat, a: seq<Instr>, b: seq<Instr>)
    requires Placed(prog, at, a + b)
    ensures Placed(prog, at, a) && Placed(prog, at + |a|, b)
  {
    assert prog[at..at + |a|] == (a + b)[..|a|];
    assert prog[at + |a|..at + |a| + |b|] == (a + b)[|a|..];
  }

  /** Where a conditional jump must arrive. */
  ghost function After(r: Result, prog: seq<Instr>, dest: nat, iftrue: bool, pop: bool, end: nat,
                       stack: seq<int>): State {
    var taken := (r.v != 0) == iftrue;
    State(if taken then LabelPos(prog, dest) else end, if taken && !pop then stack + [r.v] else stack, r.w)
  }

  /** Some number of steps leads from s to t. */
  ghost predicate Goes(prog: seq<Instr>, val: Oracle, s: State, t: State) {
    exists k: nat :: Run(prog, val, s, k) == Some(t)
  }

  lemma GoesTrans(prog: seq<Instr>, val: Oracle, s: State, t: State, u: State)
    requires Goes(prog, val, s, t) && Goes(prog, val, t, u)
    ensures Goes(prog, val, s, u)
  {
    var m: nat :| Run(prog, val, s, m) == Some(t);
    var n: nat :| Run(prog, val, t, n) == Some(u);
    RunCompose(prog, val, s, m, n);
  }

  lemma GoesStep(prog: seq<Instr>, val: Oracle, s: State)
    requires Step(prog, val, s).Some?
    ensures Goes(prog, val, s, Step(prog, val, s).value)
  {
    var t := Step(prog, val, s).value;
    assert Run(prog, val, t, 0) == Some(t);
    assert Run(prog, val, s, 1) == Some(t);
  }

  lemma GoesSelf(prog: seq<Instr>, val: Oracle, s: State)
    ensures Goes(prog, val, s, s)
  {
    assert Run(prog, val, s, 0) == Some(s);
  }

  /** The instruction at a place steps on. */
  lemma AtInstr(prog: seq<Instr>, at: nat, i: Instr)
    requires Placed(prog, at, [i])
    ensures at < |prog| && prog[at] == i
  {
    assert prog[at] == prog[at..at + 1][0];
  }

  lemma DoGoes(prog: seq<Instr>, val: Oracle, at: nat, id: nat, stack: seq<int>, w: Trace)
    requires Placed(prog, at, [Do(id)])
    ensures Goes(prog, val, State(at, stack, w), State(at + 1, stack + [val(id, w)], w + [id]))
  {
    AtInstr(prog, at, Do(id));
    GoesStep(prog, val, State(at, stack, w));
  }

  lemma PushGoes(prog: seq<Instr>, val: Oracle, at: nat, v: int, stack: seq<int>, w: Trace)
    requires Placed(prog, at, [Push(v)])
    ensures Goes(prog, val, State(at, stack, w), State(at + 1, stack + [v], w))
  {
    AtInstr(prog, at, Push(v));
    GoesStep(prog, val, State(at, stack, w));
  }

  lemma NotGoes(prog: seq<Instr>, val: Oracle, at: nat, v: int, stack: seq<int>, w: Trace)
    requires Placed(prog, at, [NotOp])
    ensures Goes(prog, val, State(at, stack + [v], w), State(at + 1, stack + [if v == 0 then 1 else 0], w))
  {
    AtInstr(prog, at, NotOp);
    assert (stack + [v])[..|stack|] == stack;
    GoesStep(prog, val, State(at, stack + [v], w));
  }

  lemma PopGoes(prog: seq<Instr>, val: Oracle, at: nat, v: int, stack: seq<int>, w: Trace)
    requires Placed(prog, at, [Pop])
    ensures Goes(prog, val, State(at, stack + [v], w), State(at + 1, stack, w))
  {
    AtInstr(prog, at, Pop);
    assert (stack + [v])[..|stack|] == stack;
    GoesStep(prog, val, State(at, stack + [v], w));
  }

  lemma LabelGoes(prog: seq<Instr>, val: Oracle, at: nat, l: nat, stack: seq<int>, w: Trace)
    requires Placed(prog, at, [Label(l)]) && UniqueLabels(prog)
    ensures Goes(prog, val, State(at, stack, w), State(at + 1, stack, w))
    ensures LabelPos(prog, l) == at && Label(l) in prog
  {
    AtInstr(prog, at, Label(l));
    LabelIsAt(prog, at);
    GoesStep(prog, val, State(at, stack, w));
  }

  lemma TestGoes(prog: seq<Instr>, val: Oracle, at: nat, dest: nat, iftrue: bool, pop: bool, v: int, stack: seq<int>,
                 w: Trace)
    requires Placed(prog, at, [Test(dest, iftrue, pop)]) && Label(dest) in prog
    ensures Goes(prog, val, State(at, stack + [v], w), After(Result(v, w), prog, dest, iftrue, pop, at + 1, stack))
  {
    AtInstr(prog, at, Test(dest, iftrue, pop));
    assert (stack + [v])[..|stack|] == stack;
    GoesStep(prog, val, State(at, stack + [v], w));
  }

  lemma BranchGoes(prog: seq<Instr>, val: Oracle, at: nat, dest: nat, stack: seq<int>, w: Trace)
    requires Placed(prog, at, [Branch(dest)]) && Label(dest) in prog
    ensures Goes(prog, val, State(at, stack, w), State(LabelPos(prog, dest), stack, w))
  {
    AtInstr(prog, at, Branch(dest));
    GoesStep(prog, val, State(at, stack, w));
  }

  /** The jump is taken exactly when the truth of t is iftrue; the leaves are evaluated as the
      source evaluates them; and the stack is as promised. */
  lemma {:induction false} CondJumpRuns(t: Node, dest: nat, iftrue: bool, pop: bool, n: nat,
                                        prog: seq<Instr>, at: nat, val: Oracle, stack: seq<int>, w: Trace)
    requires UniqueLabels(prog) && Label(dest) in prog
    requires Placed(prog, at, CondJump(t, dest, iftrue, pop, n).0)
    ensures Goes(prog, val, State(at, stack, w),
                 After(Eval(t, val, w), prog, dest, iftrue, pop, at + |CondJump(t, dest, iftrue, pop, n).0|, stack))
    decreases t, 2
  {
    hide Goes;
    hide Placed;
    hide UniqueLabels;
    hide LabelPos;
    if t.Const? && pop {
      if (t.v != 0) == iftrue {
        BranchGoes(prog, val, at, dest, stack, w);
      } else {
        GoesSelf(prog, val, State(at, stack, w));
      }
    } else if t.Land? || t.Lor? {
      if iftrue == t.Land? {
        SkipRuns(t, dest, iftrue, pop, n, prog, at, val, stack, w);
      } else {
        SameRuns(t, dest, iftrue, pop, n, prog, at, val, stack, w);
      }
    } else if t.Not? && pop {
      CondJumpRuns(t.e, dest, !iftrue, pop, n, prog, at, val, stack, w);
    } else {
      var a := Value(t, n);
      var r := Eval(t, val, w);
      PlacedParts(prog, at, a.0, [Test(dest, iftrue, pop)]);
      ValueRuns(t, n, prog, at, val, stack, w);
      TestGoes(prog, val, at + |a.0|, dest, iftrue, pop, r.v, stack, r.w);
      GoesTrans(prog, val, State(at, stack, w), State(at + |a.0|, stack + [r.v], r.w),
                After(r, prog, dest, iftrue, pop, at + |a.0| + 1, stack));
    }
  }

  /** && when jumping on true, || when jumping on false: the left operand may jump past the right. */
  lemma {:induction false} SkipRuns(t: Node, dest: nat, iftrue: bool, pop: bool, n: nat,
                                    prog: seq<Instr>, at: nat, val: Oracle, stack: seq<int>, w: Trace)
    requires UniqueLabels(prog) && Label(dest) in prog && (t.Land? || t.Lor?) && iftrue == t.Land?
    requires Placed(prog, at, CondJump(t, dest, iftrue, pop, n).0)
    ensures Goes(prog, val, State(at, stack, w),
                 After(Eval(t, val, w), prog, dest, iftrue, pop, at + |CondJump(t, dest, iftrue, pop, n).0|, stack))
    decreases t, 0
  {
    hide Goes;
    hide Placed;
    hide UniqueLabels;
    hide LabelPos;
    var s, tmp := State(at, stack, w), n + 1;
    var a := CondJump(t.l, tmp, !iftrue, true, tmp);
    var b := CondJump(t.r, dest, iftrue, pop, a.1);
    PlacedParts(prog, at, a.0 + b.0, [Label(tmp)]);
    PlacedParts(prog, at, a.0, b.0);
    var end := at + |a.0| + |b.0|;
    var r := Eval(t.l, val, w);
    LabelGoes(prog, val, end, tmp, stack, r.w);
    CondJumpRuns(t.l, tmp, !iftrue, true, tmp, prog, at, val, stack, w);
    if (r.v != 0) == iftrue {
      var q := Eval(t.r, val, r.w);
      var there := After(q, prog, dest, iftrue, pop, end, stack);
      CondJumpRuns(t.r, dest, iftrue, pop, a.1, prog, at + |a.0|, val, stack, r.w);
      GoesTrans(prog, val, s, State(at + |a.0|, stack, r.w), there);
      if (q.v != 0) != iftrue {
        LabelGoes(prog, val, end, tmp, stack, q.w);
        GoesTrans(prog, val, s, there, State(end + 1, stack, q.w));
      }
    } else {
      GoesTrans(prog, val, s, State(end, stack, r.w), State(end + 1, stack, r.w));
    }
  }

  /** The other way around both operands jump to the same place. */
  lemma {:induction false} SameRuns(t: Node, dest: nat, iftrue: bool, pop: bool, n: nat,
                                    prog: seq<Instr>, at: nat, val: Oracle, stack: seq<int>, w: Trace)
    requires UniqueLabels(prog) && Label(dest) in prog && (t.Land? || t.Lor?) && iftrue != t.Land?
    requires Placed(prog, at, CondJump(t, dest, iftrue, pop, n).0)
    ensures Goes(prog, val, State(at, stack, w),
                 After(Eval(t, val, w), prog, dest, iftrue, pop, at + |CondJump(t, dest, iftrue, pop, n).0|, stack))
    decreases t, 0
  {
    hide Goes;
    hide Placed;
    hide UniqueLabels;
    hide LabelPos;
    var a := CondJump(t.l, dest, iftrue, pop, n);
    var b := CondJump(t.r, dest, iftrue, pop, a.1);
    PlacedParts(prog, at, a.0, b.0);
    CondJumpRuns(t.l, dest, iftrue, pop, n, prog, at, val, stack, w);
    var r := Eval(t.l, val, w);
    if (r.v != 0) != iftrue {
      CondJumpRuns(t.r, dest, iftrue, pop, a.1, prog, at + |a.0|, val, stack, r.w);
      GoesTrans(prog, val, State(at, stack, w), State(at + |a.0|, stack, r.w),
                After(Eval(t.r, val, r.w), prog, dest, iftrue, pop, at + |a.0| + |b.0|, stack));
    }
  }

  /** Compiled as a value, t pushes its value and evaluates its leaves as the source does. */
  lemma {:induction false} ValueRuns(t: Node, n: nat, prog: seq<Instr>, at: nat, val: Oracle, stack: seq<int>, w: Trace)
    requires UniqueLabels(prog) && Placed(prog, at, Value(t, n).0)
    ensures var r := Eval(t, val, w);
            Goes(prog, val, State(at, stack, w), State(at + |Value(t, n).0|, stack + [r.v], r.w))
    decreases t, 1
  {
    hide Goes;
    hide Placed;
    hide UniqueLabels;
    hide LabelPos;
    var s := State(at, stack, w);
    match t
    case Leaf(id) => DoGoes(prog, val, at, id, stack, w);
    case Const(v) => PushGoes(prog, val, at, v, stack, w);
    case Not(e) =>
      var a := Value(e, n);
      var r := Eval(e, val, w);
      PlacedParts(prog, at, a.0, [NotOp]);
      ValueRuns(e, n, prog, at, val, stack, w);
      NotGoes(prog, val, at + |a.0|, r.v, stack, r.w);
      GoesTrans(prog, val, s, State(at + |a.0|, stack + [r.v], r.w),
                State(at + |a.0| + 1, stack + [if r.v == 0 then 1 else 0], r.w));
    case _ => ShortValueRuns(t, n, prog, at, val, stack, w);
  }

  lemma {:induction false} ShortValueRuns(t: Node, n: nat, prog: seq<Instr>, at: nat, val: Oracle, stack: seq<int>,
                                          w: Trace)
    requires UniqueLabels(prog) && Placed(prog, at, Value(t, n).0) && (t.Land? || t.Lor?)
    ensures var r := Eval(t, val, w);
            Goes(prog, val, State(at, stack, w), State(at + |Value(t, n).0|, stack + [r.v], r.w))
    decreases t, 0
  {
    hide Goes;
    hide Placed;
    hide UniqueLabels;
    hide LabelPos;
    var s, tmp := State(at, stack, w), n + 1;
    var a := CondJump(t.l, tmp, t.Lor?, false, tmp);
    var b := Value(t.r, a.1);
    PlacedParts(prog, at, a.0 + b.0, [Label(tmp)]);
    PlacedParts(prog, at, a.0, b.0);
    var end := at + |a.0| + |b.0|;
    var r := Eval(t.l, val, w);
    LabelGoes(prog, val, end, tmp, stack + [r.v], r.w);
    CondJumpRuns(t.l, tmp, t.Lor?, false, tmp, prog, at, val, stack, w);
    if (r.v != 0) == t.Lor? {
      GoesTrans(prog, val, s, State(end, stack + [r.v], r.w), State(end + 1, stack + [r.v], r.w));
    } else {
      var q := Eval(t.r, val, r.w);
      ValueRuns(t.r, a.1, prog, at + |a.0|, val, stack, r.w);
      GoesTrans(prog, val, s, State(at + |a.0|, stack, r.w), State(end, stack + [q.v], q.w));
      LabelGoes(prog, val, end, tmp, stack + [q.v], q.w);
      GoesTrans(prog, val, s, State(end, stack + [q.v], q.w), State(end + 1, stack + [q.v], q.w));
    }
  }

  /** Compiled as a statement, t evaluates its leaves as the source does and leaves no value. */
  lemma {:induction false} BlockRuns(t: Node, n: nat, prog: seq<Instr>, at: nat, val: Oracle, stack: seq<int>, w: Trace)
    requires UniqueLabels(prog) && Placed(prog, at, Block(t, n).0)
    ensures Goes(prog, val, State(at, stack, w), State(at + |Block(t, n).0|, stack, Eval(t, val, w).w))
  {
    hide Goes;
    hide Placed;
    hide UniqueLabels;
    hide LabelPos;
    var s := State(at, stack, w);
    if t.Land? || t.Lor? {
      var tmp := n + 1;
      var a := CondJump(t.l, tmp, t.Lor?, true, tmp);
      var b := Block(t.r, a.1);
      PlacedParts(prog, at, a.0 + b.0, [Label(tmp)]);
      PlacedParts(prog, at, a.0, b.0);
      var end := at + |a.0| + |b.0|;
      var r := Eval(t.l, val, w);
      LabelGoes(prog, val, end, tmp, stack, r.w);
      CondJumpRuns(t.l, tmp, t.Lor?, true, tmp, prog, at, val, stack, w);
      if (r.v != 0) == t.Lor? {
        GoesTrans(prog, val, s, State(end, stack, r.w), State(end + 1, stack, r.w));
      } else {
        var q := Eval(t.r, val, r.w);
        BlockRuns(t.r, a.1, prog, at + |a.0|, val, stack, r.w);
        GoesTrans(prog, val, s, State(at + |a.0|, stack, r.w), State(end, stack, q.w));
        LabelGoes(prog, val, end, tmp, stack, q.w);
        GoesTrans(prog, val, s, State(end, stack, q.w), State(end + 1, stack, q.w));
      }
    } else {
      var a := Value(t, n);
      var r := Eval(t, val, w);
      PlacedParts(prog, at, a.0, [Pop]);
      ValueRuns(t, n, prog, at, val, stack, w);
      PopGoes(prog, val, at + |a.0|, r.v, stack, r.w);
      GoesTrans(prog, val, s, State(at + |a.0|, stack + [r.v], r.w), State(at + |a.0| + 1, stack, r.w));
    }
  }

  // ---- Labels ----

  /** The labels placed in code are different, and were given out after lo, up to hi. */
  ghost predicate Labels(code: seq<Instr>, lo: nat, hi: nat) {
    && UniqueLabels(code)
    && forall i :: 0 <= i < |code| && code[i].Label? ==> lo < code[i].lbl <= hi
  }

  lemma LabelsJoin(a: seq<Instr>, b: seq<Instr>, lo: nat, mid: nat, hi: nat)
    requires Labels(a, lo, mid) && Labels(b, mid, hi) && lo <= mid <= hi
    ensures Labels(a + b, lo, hi)
  {
  }

  /** The label of a connective comes before all labels of its operands. */
  lemma LabelsClose(a: seq<Instr>, tmp: nat, hi: nat)
    requires Labels(a, tmp, hi) && 0 < tmp <= hi
    ensures Labels(a + [Label(tmp)], tmp - 1, hi)
  {
  }

  lemma {:induction false} CondJumpLabels(t: Node, dest: nat, iftrue: bool, pop: bool, n: nat)
    ensures var c := CondJump(t, dest, iftrue, pop, n); Labels(c.0, n, c.1)
    decreases t, 1
  {
    if t.Const? && pop {
    } else if t.Land? || t.Lor? {
      if iftrue == t.Land? {
        var tmp := n + 1;
        var a := CondJump(t.l, tmp, !iftrue, true, tmp);
        var b := CondJump(t.r, dest, iftrue, pop, a.1);
        CondJumpLabels(t.l, tmp, !iftrue, true, tmp);
        CondJumpLabels(t.r, dest, iftrue, pop, a.1);
        LabelsJoin(a.0, b.0, tmp, a.1, b.1);
        LabelsClose(a.0 + b.0, tmp, b.1);
      } else {
        var a := CondJump(t.l, dest, iftrue, pop, n);
        var b := CondJump(t.r, dest, iftrue, pop, a.1);
        CondJumpLabels(t.l, dest, iftrue, pop, n);
        CondJumpLabels(t.r, dest, iftrue, pop, a.1);
        LabelsJoin(a.0, b.0, n, a.1, b.1);
      }
    } else if t.Not? && pop {
      CondJumpLabels(t.e, dest, !iftrue, pop, n);
    } else {
      ValueLabels(t, n);
      var a := Value(t, n);
      LabelsJoin(a.0, [Test(dest, iftrue, pop)], n, a.1, a.1);
    }
  }

  lemma {:induction false} ValueLabels(t: Node, n: nat)
    ensures var c := Value(t, n); Labels(c.0, n, c.1)
    decreases t, 0
  {
    match t
    case Leaf(id) =>
    case Const(v) =>
    case Not(e) =>
      ValueLabels(e, n);
      LabelsJoin(Value(e, n).0, [NotOp], n, Value(e, n).1, Value(e, n).1);
    case _ =>
      var tmp := n + 1;
      var a := CondJump(t.l, tmp, t.Lor?, false, tmp);
      var b := Value(t.r, a.1);
      CondJumpLabels(t.l, tmp, t.Lor?, false, tmp);
      ValueLabels(t.r, a.1);
      LabelsJoin(a.0, b.0, tmp, a.1, b.1);
      LabelsClose(a.0 + b.0, tmp, b.1);
  }

  lemma {:induction false} BlockLabels(t: Node, n: nat)
    ensures var c := Block(t, n); Labels(c.0, n, c.1)
  {
    if t.Land? || t.Lor? {
      var tmp := n + 1;
      var a := CondJump(t.l, tmp, t.Lor?, true, tmp);
      var b := Block(t.r, a.1);
      CondJumpLabels(t.l, tmp, t.Lor?, true, tmp);
      BlockLabels(t.r, a.1);
      LabelsJoin(a.0, b.0, tmp, a.1, b.1);
      LabelsClose(a.0 + b.0, tmp, b.1);
    } else {
      ValueLabels(t, n);
      LabelsJoin(Value(t, n).0, [Pop], n, Value(t, n).1, Value(t, n).1);
    }
  }
}
