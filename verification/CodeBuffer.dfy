/** The instruction buffer and the recursive emitters that append to it. */
module CodeBuffer {
  import opened Codegen
  import opened Basics
  import opened Unroll

  const LBLCACHESIZE: nat := 4711
  const MAX_UNWIND: nat := 100

  /** What emitting one instruction may append: just it, or, for a branch to a label already in
      the buffer, a copy of the code from that label on first. */
  ghost predicate Emits(buf: seq<Instr>, i: Instr, out: seq<Instr>) {
    || out == buf + [i]
    || (i.Branch? && exists pos :: 0 <= pos < |buf| && buf[pos] == Label(i.lbl) && out == buf + Copy(buf, pos) + [i])
  }

  /** Emitting the instructions s one by one may turn buf into out. */
  ghost predicate Expands(buf: seq<Instr>, s: seq<Instr>, out: seq<Instr>)
    decreases |s|
  {
    if s == [] then out == buf
    else exists mid :: Emits(buf, s[0], mid) && Expands(mid, s[1..], out)
  }

  lemma ExpandsOne(buf: seq<Instr>, i: Instr, out: seq<Instr>)
    requires Emits(buf, i, out)
    ensures Expands(buf, [i], out)
  {
    assert Expands(out, [i][1..], out);
  }

  lemma {:induction false} ExpandsJoin(buf: seq<Instr>, s: seq<Instr>, mid: seq<Instr>, r: seq<Instr>, out: seq<Instr>)
    requires Expands(buf, s, mid) && Expands(mid, r, out)
    ensures Expands(buf, s + r, out)
    decreases |s|
  {
    if s == [] {
      assert s + r == r;
    } else {
      var m :| Emits(buf, s[0], m) && Expands(m, s[1..], mid);
      ExpandsJoin(m, s[1..], mid, r, out);
      assert (s + r)[1..] == s[1..] + r;
    }
  }

  lemma MeaningTrans(p: seq<Instr>, q: seq<Instr>, r: seq<Instr>, upto: nat, more: nat)
    requires SameMeaning(p, q, upto) && SameMeaning(q, r, more) && upto <= more
    ensures SameMeaning(p, r, upto)
  {
  }

  lemma MeaningSelf(p: seq<Instr>, upto: nat)
    ensures SameMeaning(p, p, upto)
  {
  }

  lemma TracksTrans(p: seq<Instr>, q: seq<Instr>, r: seq<Instr>, upto: nat, more: nat, tail: nat, longer: nat)
    requires Tracks(p, q, upto, longer) && Tracks(q, r, more, tail) && upto <= more && tail <= longer
    ensures Tracks(p, r, upto, tail)
  {
    forall val: Oracle, s: State, t: State | 0 <= s.pc <= upto && Goes(p, val, s, t)
      ensures Tracked(p, r, tail, val, s, t)
    {
      assert Tracked(p, q, longer, val, s, t);
      var u :| Goes(q, val, s, u) && SameFrom(p, val, t, q, u) && (|p| - t.pc <= longer ==> |q| - u.pc == |p| - t.pc);
      assert Tracked(q, r, tail, val, s, u);
      var x :| Goes(r, val, s, x) && SameFrom(q, val, u, r, x) && (|q| - u.pc <= tail ==> |r| - x.pc == |q| - u.pc);
      SameTrans(p, q, r, val, t, u, x);
      hide Goes, SameFrom;
    }
  }

  lemma SameTrans(p: seq<Instr>, q: seq<Instr>, r: seq<Instr>, val: Oracle, s: State, t: State, u: State)
    requires SameFrom(p, val, s, q, t) && SameFrom(q, val, t, r, u)
    ensures SameFrom(p, val, s, r, u)
  {
  }

  lemma TracksSelf(p: seq<Instr>, upto: nat, tail: nat)
    ensures Tracks(p, p, upto, tail)
  {
    forall val: Oracle, s: State, t: State | 0 <= s.pc <= upto && Goes(p, val, s, t)
      ensures Tracked(p, p, tail, val, s, t)
    {
      assert SameFrom(p, val, t, p, t);
    }
  }

  /** All the copying together keeps the meaning of the program, whatever is emitted later. */
  lemma {:induction false} ExpandsKeepsMeaning(buf: seq<Instr>, s: seq<Instr>, out: seq<Instr>, d: seq<Instr>)
    requires Expands(buf, s, out) && UniqueLabels(buf + s + d)
    ensures SameMeaning(buf + s + d, out + d, |buf|) && UniqueLabels(out + d)
    ensures Tracks(buf + s + d, out + d, |buf|, |d|)
    decreases |s|
  {
    hide SameMeaning, Tracks, UniqueLabels, Setting;
    if s == [] {
      assert buf + s == buf;
      MeaningSelf(out + d, |buf|);
      TracksSelf(out + d, |buf|, |d|);
    } else {
      var mid :| Emits(buf, s[0], mid) && Expands(mid, s[1..], out);
      var rest := s[1..] + d;
      assert buf + s + d == buf + [s[0]] + rest;
      assert mid + s[1..] + d == mid + rest;
      if mid == buf + [s[0]] {
        ExpandsKeepsMeaning(mid, s[1..], out, d);
        MeaningSelf(mid + rest, |buf|);
        TracksSelf(mid + rest, |buf|, |rest|);
      } else {
        var pos :| 0 <= pos < |buf| && buf[pos] == Label(s[0].lbl) && mid == buf + Copy(buf, pos) + [s[0]];
        assert buf + [s[0]] + rest == Plain(buf, s[0].lbl, rest);
        assert mid + rest == Unrolled(buf, pos, s[0].lbl, rest);
        IsSetting(buf, pos, s[0].lbl, rest);
        UnrollKeepsMeaning(buf, pos, s[0].lbl, rest);
        UnrollTracks(buf, pos, s[0].lbl, rest);
        UnrolledUnique(buf, pos, s[0].lbl, rest);
        ExpandsKeepsMeaning(mid, s[1..], out, d);
      }
      MeaningTrans(buf + s + d, mid + rest, out + d, |buf|, |mid|);
      TracksTrans(buf + s + d, mid + rest, out + d, |buf|, |mid|, |d|, |rest|);
    }
  }

  lemma IsSetting(a: seq<Instr>, pos: nat, lbl: nat, d: seq<Instr>)
    requires pos < |a| && a[pos] == Label(lbl) && UniqueLabels(Plain(a, lbl, d))
    ensures Setting(a, pos, lbl, d)
  {
  }

  lemma GoesShows(prog: seq<Instr>, val: Oracle, s: State, t: State)
    requires Goes(prog, val, s, t)
    ensures Shows(prog, val, s, t.stack, t.w, t.pc == |prog|)
  {
    var k: nat :| Run(prog, val, s, k) == Some(t);
    assert ShowsAt(prog, val, s, t.stack, t.w, t.pc == |prog|, k);
  }

  /** Code emitted for the value of t after any earlier code, copies included: run from there, it
      ends with the value of t pushed and the leaves of t evaluated as in the source. */
  lemma EmittedValue(buf: seq<Instr>, n: nat, t: Node, out: seq<Instr>, val: Oracle, stack: seq<int>, w: Trace)
    requires Labels(buf, 0, n) && Expands(buf, Value(t, n).0, out)
    ensures var r := Eval(t, val, w); Shows(out, val, State(|buf|, stack, w), stack + [r.v], r.w, true)
  {
    hide Value;
    hide Expands;
    hide Goes;
    var code := Value(t, n);
    var prog := buf + code.0;
    ValueLabels(t, n);
    LabelsJoin(buf, code.0, 0, n, code.1);
    assert Placed(prog, |buf|, code.0);
    ValueRuns(t, n, prog, |buf|, val, stack, w);
    var r := Eval(t, val, w);
    GoesShows(prog, val, State(|buf|, stack, w), State(|prog|, stack + [r.v], r.w));
    assert prog + [] == prog && out + [] == out;
    ExpandsKeepsMeaning(buf, code.0, out, []);
  }

  /** The same for code emitted for effects only: it leaves the stack as it was. */
  lemma EmittedBlock(buf: seq<Instr>, n: nat, t: Node, out: seq<Instr>, val: Oracle, stack: seq<int>, w: Trace)
    requires Labels(buf, 0, n) && Expands(buf, Block(t, n).0, out)
    ensures Shows(out, val, State(|buf|, stack, w), stack, Eval(t, val, w).w, true)
  {
    hide Block;
    hide Expands;
    hide Goes;
    var code := Block(t, n);
    var prog := buf + code.0;
    BlockLabels(t, n);
    LabelsJoin(buf, code.0, 0, n, code.1);
    assert Placed(prog, |buf|, code.0);
    BlockRuns(t, n, prog, |buf|, val, stack, w);
    GoesShows(prog, val, State(|buf|, stack, w), State(|prog|, stack, Eval(t, val, w).w));
    assert prog + [] == prog && out + [] == out;
    ExpandsKeepsMeaning(buf, code.0, out, []);
  }

  /** A condition emitted before any code d, copies included: run from there, it leaves stack and trace as
      the truth of t says, and goes to d, or to the label when that is in d.  A label further back may not be
      visited, when what follows it was copied; but the place reached shows the same as the label in the
      program without copies. */
  lemma EmittedCondJump(buf: seq<Instr>, n: nat, t: Node, dest: nat, iftrue: bool, pop: bool, out: seq<Instr>,
                        d: seq<Instr>, val: Oracle, stack: seq<int>, w: Trace) returns (r: State)
    requires Expands(buf, CondJump(t, dest, iftrue, pop, n).0, out)
    requires var prog := buf + CondJump(t, dest, iftrue, pop, n).0 + d; UniqueLabels(prog) && Label(dest) in prog
    ensures Goes(out + d, val, State(|buf|, stack, w), r) && r.w == Eval(t, val, w).w
    ensures var v := Eval(t, val, w).v; var taken := (v != 0) == iftrue;
            && r.stack == (if taken && !pop then stack + [v] else stack)
            && (!taken ==> r.pc == |out|)
            && (taken && Label(dest) in d ==> r.pc == LabelPos(out + d, dest))
            && var prog := buf + CondJump(t, dest, iftrue, pop, n).0 + d;
               && (taken ==> SameFrom(prog, val, r.(pc := LabelPos(prog, dest)), out + d, r))
               && SameMeaning(prog, out + d, |buf|)
  {
    hide CondJump, Expands, Goes, SameMeaning, UniqueLabels, LabelPos, SameFrom, Tracks;
    var c := CondJump(t, dest, iftrue, pop, n).0;
    var prog := buf + c + d;
    assert prog[|buf|..|buf| + |c|] == c;
    CondJumpRuns(t, dest, iftrue, pop, n, prog, |buf|, val, stack, w);
    ExpandsKeepsMeaning(buf, c, out, d);
    var x := After(Eval(t, val, w), prog, dest, iftrue, pop, |buf| + |c|, stack);
    r := Arrives(prog, out + d, |buf|, |d|, val, State(|buf|, stack, w), x);
    if Label(dest) in d {
      LabelBehind(buf + c, d, dest);
      LabelBehind(out, d, dest);
    }
  }

  /** Two leaves joined by && or ||, and a negated one, as emitted: what is pushed and what has been evaluated. */
  lemma EmittedOperators(buf: seq<Instr>, n: nat, x: nat, y: nat, out: seq<Instr>, val: Oracle, stack: seq<int>,
                         w: Trace)
    requires Labels(buf, 0, n)
    ensures var p, q, s := val(x, w), val(y, w + [x]), State(|buf|, stack, w);
      && (Expands(buf, Value(Land(Leaf(x), Leaf(y)), n).0, out) ==>
            Shows(out, val, s, stack + [if p == 0 then p else q], if p == 0 then w + [x] else w + [x] + [y], true))
      && (Expands(buf, Value(Lor(Leaf(x), Leaf(y)), n).0, out) ==>
            Shows(out, val, s, stack + [if p == 0 then q else p], if p == 0 then w + [x] + [y] else w + [x], true))
      && (Expands(buf, Value(Not(Leaf(x)), n).0, out) ==>
            Shows(out, val, s, stack + [if p == 0 then 1 else 0], w + [x], true))
  {
    hide Value, Expands, Labels, Shows;
    if Expands(buf, Value(Land(Leaf(x), Leaf(y)), n).0, out) {
      EmittedValue(buf, n, Land(Leaf(x), Leaf(y)), out, val, stack, w);
    }
    if Expands(buf, Value(Lor(Leaf(x), Leaf(y)), n).0, out) {
      EmittedValue(buf, n, Lor(Leaf(x), Leaf(y)), out, val, stack, w);
    }
    if Expands(buf, Value(Not(Leaf(x)), n).0, out) {
      EmittedValue(buf, n, Not(Leaf(x)), out, val, stack, w);
    }
  }

  /** The state of the other program that stands for t. */
  lemma Arrives(p: seq<Instr>, q: seq<Instr>, upto: nat, tail: nat, val: Oracle, s: State, t: State) returns (r: State)
    requires Tracks(p, q, upto, tail) && 0 <= s.pc <= upto && Goes(p, val, s, t)
    ensures Goes(q, val, s, r) && SameFrom(p, val, t, q, r) && t == State(t.pc, r.stack, r.w)
    ensures |p| - t.pc <= tail ==> |q| - r.pc == |p| - t.pc
  {
    hide Goes, Shows;
    assert Tracked(p, q, tail, val, s, t);
    r :| Goes(q, val, s, r) && SameFrom(p, val, t, q, r) && (|p| - t.pc <= tail ==> |q| - r.pc == |p| - t.pc);
  }

  lemma LabelBehind(a: seq<Instr>, d: seq<Instr>, l: nat)
    requires UniqueLabels(a + d) && Label(l) in d
    ensures LabelPos(a + d, l) == |a| + LabelPos(d, l) && 0 <= LabelPos(d, l) < |d|
  {
    hide UniqueLabels, LabelPos;
    var k :| 0 <= k < |d| && d[k] == Label(l);
    assert (a + d)[|a| + k] == Label(l);
    LabelIsAt(a + d, |a| + k);
    UniqueBehind(a, d);
    LabelIsAt(d, k);
  }

  lemma UniqueBehind(a: seq<Instr>, d: seq<Instr>)
    requires UniqueLabels(a + d)
    ensures UniqueLabels(d)
  {
    forall i, j | 0 <= i < j < |d| && d[i].Label? && d[j].Label? ensures d[i] != d[j] {
      assert (a + d)[|a| + i] == d[i] && (a + d)[|a| + j] == d[j];
    }
  }

  class Compiler {
    var code: seq<Instr>
    var labelNo: nat
    const lblCache: array<nat>

    ghost predicate Valid() {
      lblCache.Length == LBLCACHESIZE
    }

    constructor ()
      ensures Valid() && code == [] && labelNo == 0 && fresh(lblCache)
    {
      code, labelNo := [], 0;
      lblCache := new nat[LBLCACHESIZE](_ => 0);
    }

    method AllocLabel() returns (l: nat)
      requires Valid()
      modifies this`labelNo
      ensures l == labelNo == old(labelNo) + 1
    {
      labelNo := labelNo + 1;
      l := labelNo;
    }

    method Emit(i: Instr)
      modifies this`code
      ensures code == old(code) + [i]
    {
      code := code + [i];
    }

    method InsertLabel(l: nat)
      requires Valid()
      modifies this`code, lblCache
      ensures code == old(code) + [Label(l)]
    {
      lblCache[l % LBLCACHESIZE] := |code|;
      Emit(Label(l));
    }

    /** Branch to lbl.  When the label cache still knows where lbl is, not too far back, the code
        from there on is copied first, without its labels. */
    method DoBranch(lbl: nat)
      requires Valid()
      modifies this`code
      ensures Emits(old(code), Branch(lbl), code)
      ensures var pos, n := old(lblCache[lbl % LBLCACHESIZE]), |old(code)|;
              code == old(code)
                      + (if pos < n && n - pos < MAX_UNWIND && old(code)[pos] == Label(lbl)
                          then Copy(old(code), pos) else [])
                      + [Branch(lbl)]
    {
      var pos := lblCache[lbl % LBLCACHESIZE];
      var last := |code|;
      if pos < last && last - pos < MAX_UNWIND {
        if code[pos] == Label(lbl) {
          ghost var buf, start := code, pos;
          while pos < last
            invariant start <= pos <= last && |code| >= last && code[..last] == buf
            invariant code + Copy(buf, pos) == buf + Copy(buf, start)
          {
            assert code[pos] == buf[pos];
            if !code[pos].Label? {
              assert code + ([buf[pos]] + Copy(buf, pos + 1)) == code + [buf[pos]] + Copy(buf, pos + 1);
              Emit(code[pos]);
            }
            pos := pos + 1;
          }
          assert code + [] == code;
        }
      }
      Emit(Branch(lbl));
    }

    /** Jump to dest when the truth of t is iftrue. */
    method DoCondJump(t: Node, dest: nat, iftrue: bool, pop: bool)
      requires Valid()
      modifies this, lblCache
      ensures Valid() && labelNo == CondJump(t, dest, iftrue, pop, old(labelNo)).1
      ensures Expands(old(code), CondJump(t, dest, iftrue, pop, old(labelNo)).0, code)
      decreases t, 1
    {
      if pop && t.Const? {
        if (t.v != 0) == iftrue {
          DoBranch(dest);
          ExpandsOne(old(code), Branch(dest), code);
        }
        return;
      }
      if t.Land? || t.Lor? {
        if iftrue == t.Land? {
          var tmp := AllocLabel();
          ghost var n := labelNo;
          DoCondJump(t.l, tmp, !iftrue, true);
          ghost var c1, n1 := code, labelNo;
          DoCondJump(t.r, dest, iftrue, pop);
          ghost var c2 := code;
          InsertLabel(tmp);
          ExpandsJoin(old(code), CondJump(t.l, tmp, !iftrue, true, n).0, c1,
                      CondJump(t.r, dest, iftrue, pop, n1).0, c2);
          ExpandsOne(c2, Label(tmp), code);
          ExpandsJoin(old(code), CondJump(t.l, tmp, !iftrue, true, n).0 + CondJump(t.r, dest, iftrue, pop, n1).0, c2,
                      [Label(tmp)], code);
        } else {
          DoCondJump(t.l, dest, iftrue, pop);
          ghost var c1, n1 := code, labelNo;
          DoCondJump(t.r, dest, iftrue, pop);
          ExpandsJoin(old(code), CondJump(t.l, dest, iftrue, pop, old(labelNo)).0, c1,
                      CondJump(t.r, dest, iftrue, pop, n1).0, code);
        }
        return;
      }
      if t.Not? && pop {
        DoCondJump(t.e, dest, !iftrue, pop);
        return;
      }
      DoValue(t);
      ghost var c := code;
      Emit(Test(dest, iftrue, pop));
      ExpandsOne(c, Test(dest, iftrue, pop), code);
      ExpandsJoin(old(code), Value(t, old(labelNo)).0, c, [Test(dest, iftrue, pop)], code);
    }

    /** Leave the value of t on the stack. */
    method DoValue(t: Node)
      requires Valid()
      modifies this, lblCache
      ensures Valid() && labelNo == Value(t, old(labelNo)).1
      ensures Expands(old(code), Value(t, old(labelNo)).0, code)
      decreases t, 0
    {
      match t {
        case Leaf(id) =>
          Emit(Do(id));
          ExpandsOne(old(code), Do(id), code);
        case Const(v) =>
          Emit(Push(v));
          ExpandsOne(old(code), Push(v), code);
        case Not(e) =>
          DoValue(e);
          ghost var c := code;
          Emit(NotOp);
          ExpandsOne(c, NotOp, code);
          ExpandsJoin(old(code), Value(e, old(labelNo)).0, c, [NotOp], code);
        case _ =>
          var tmp := AllocLabel();
          ghost var n := labelNo;
          DoCondJump(t.l, tmp, t.Lor?, false);
          ghost var c1, n1 := code, labelNo;
          DoValue(t.r);
          ghost var c2 := code;
          InsertLabel(tmp);
          ExpandsJoin(old(code), CondJump(t.l, tmp, t.Lor?, false, n).0, c1, Value(t.r, n1).0, c2);
          ExpandsOne(c2, Label(tmp), code);
          ExpandsJoin(old(code), CondJump(t.l, tmp, t.Lor?, false, n).0 + Value(t.r, n1).0, c2, [Label(tmp)], code);
      }
    }

    /** Evaluate t for its effects only. */
    method DoCodeBlock(t: Node)
      requires Valid()
      modifies this, lblCache
      ensures Valid() && labelNo == Block(t, old(labelNo)).1
      ensures Expands(old(code), Block(t, old(labelNo)).0, code)
    {
      if t.Land? || t.Lor? {
        var tmp := AllocLabel();
        ghost var n := labelNo;
        DoCondJump(t.l, tmp, t.Lor?, true);
        ghost var c1, n1 := code, labelNo;
        DoCodeBlock(t.r);
        ghost var c2 := code;
        InsertLabel(tmp);
        ExpandsJoin(old(code), CondJump(t.l, tmp, t.Lor?, true, n).0, c1, Block(t.r, n1).0, c2);
        ExpandsOne(c2, Label(tmp), code);
        ExpandsJoin(old(code), CondJump(t.l, tmp, t.Lor?, true, n).0 + Block(t.r, n1).0, c2, [Label(tmp)], code);
      } else {
        DoValue(t);
        ghost var c := code;
        Emit(Pop);
        ExpandsOne(c, Pop, code);
        ExpandsJoin(old(code), Value(t, old(labelNo)).0, c, [Pop], code);
      }
    }
  }
}
