/** Combining UNIX paths: the editing loop that resolves "." and ".." while it copies, against
    splitting at the separators. Covers absolute and relative paths; root says which. */
module CombinePath {

  // ---- What a path means ----

  predicate NoSep(w: string) {
    forall k :: 0 <= k < |w| ==> w[k] != '/'
  }

  /** The pieces between the separators; some may be empty. */
  function Split(p: string): (r: seq<string>)
    ensures |r| > 0
  {
    if p == "" then [""]
    else if p[0] == '/' then [""] + Split(p[1..])
    else
      var rest := Split(p[1..]);
      [[p[0]] + rest[0]] + rest[1..]
  }

  /** One piece applied to the names so far. Above the root there is only the root; above the start of a
      relative path there is "..". */
  function Apply(root: bool, cs: seq<string>, w: string): seq<string> {
    if w == "" || w == "." then cs
    else if w == ".." then
      if cs == [] then (if root then [] else [".."])
      else if cs[|cs| - 1] == ".." then cs + [".."]
      else cs[..|cs| - 1]
    else cs + [w]
  }

  function ApplyAll(root: bool, cs: seq<string>, ws: seq<string>): seq<string>
    decreases |ws|
  {
    if ws == [] then cs else ApplyAll(root, Apply(root, cs, ws[0]), ws[1..])
  }

  /** The names a path leads through, starting in the directory cs. */
  function Resolve(root: bool, cs: seq<string>, p: string): seq<string> {
    ApplyAll(root, cs, Split(p))
  }

  /** A directory written out: every name followed by a separator. */
  function Dir(root: bool, cs: seq<string>): string {
    if cs == [] then (if root then "/" else "") else Dir(root, cs[..|cs| - 1]) + cs[|cs| - 1] + "/"
  }

  /** The path of a list of names. The root is a lone separator; a relative path without names is ".". */
  function Render(root: bool, cs: seq<string>, trailing: bool): string {
    if cs == [] then (if root then "/" else if trailing then "./" else ".")
    else if trailing then Dir(root, cs)
    else Dir(root, cs[..|cs| - 1]) + cs[|cs| - 1]
  }

  predicate EndsInSep(p: string) {
    p != "" && p[|p| - 1] == '/'
  }

  predicate IsAbs(p: string) {
    p != "" && p[0] == '/'
  }

  function Names(p: string): seq<string> {
    Resolve(IsAbs(p), [], p)
  }

  /** The canonical form of a path. */
  function Canonical(p: string): string {
    Render(IsAbs(p), Names(p), EndsInSep(p))
  }

  /** A name that stays behind cs: ".." only at the start of a relative path. */
  predicate Stays(root: bool, cs: seq<string>, w: string) {
    && w != "" && w != "." && NoSep(w)
    && (w == ".." ==> !root && (cs == [] || cs[|cs| - 1] == ".."))
  }

  predicate Clean(root: bool, cs: seq<string>) {
    cs == [] || (Clean(root, cs[..|cs| - 1]) && Stays(root, cs[..|cs| - 1], cs[|cs| - 1]))
  }

  // ---- Laws of splitting ----

  lemma SplitCons(c: char, p: string)
    ensures Split([c] + p) == if c == '/' then [""] + Split(p) else [[c] + Split(p)[0]] + Split(p)[1..]
  {
    assert ([c] + p)[1..] == p;
  }

  lemma PeelWord(w: string, r: string, x: string)
    requires w != ""
    ensures w + r == [w[0]] + (w[1..] + r) && [w[0]] + (w[1..] + x) == w + x
  {
  }

  lemma {:induction false} SplitWord(w: string, r: string)
    requires NoSep(w)
    ensures Split(w + r) == [w + Split(r)[0]] + Split(r)[1..]
  {
    if w == "" {
      assert w + r == r && w + Split(r)[0] == Split(r)[0];
    } else {
      SplitWord(w[1..], r);
      PeelWord(w, r, Split(r)[0]);
      SplitCons(w[0], w[1..] + r);
      hide Split;
      TailOfBoth([w[1..] + Split(r)[0]], Split(r)[1..]);
      assert [w[1..] + Split(r)[0]][1..] == [];
    }
  }

  lemma SplitSep(r: string)
    ensures Split("/" + r) == [""] + Split(r) && Split("") == [""]
  {
    assert ("/" + r)[1..] == r;
  }

  lemma SplitAtSep(w: string, r: string)
    requires NoSep(w)
    ensures Split(w + "/" + r) == [w] + Split(r) && Split(w) == [w]
  {
    hide Split;
    SplitSep(r);
    SplitWord(w, "/" + r);
    assert w + ("/" + r) == w + "/" + r;
    assert w + "" == w;
    SplitWord(w, "");
  }

  lemma ResolveWord(root: bool, cs: seq<string>, w: string, r: string)
    requires NoSep(w)
    ensures Resolve(root, cs, w + "/" + r) == Resolve(root, Apply(root, cs, w), r)
    ensures Resolve(root, cs, w) == Apply(root, cs, w)
  {
    hide Split;
    SplitAtSep(w, r);
    assert [w][1..] == [] && ([w] + Split(r))[1..] == Split(r);
    assert ApplyAll(root, cs, [w]) == ApplyAll(root, Apply(root, cs, w), []);
  }

  lemma PeelJoin(p: string, q: string)
    requires p != ""
    ensures p + "/" + q == [p[0]] + (p[1..] + "/" + q) && p == [p[0]] + p[1..]
  {
  }

  lemma TailOfBoth(v: seq<string>, w: seq<string>)
    requires v != []
    ensures (v + w)[0] == v[0] && (v + w)[1..] == v[1..] + w
  {
  }

  lemma Regroup(x: seq<string>, y: seq<string>, z: seq<string>)
    ensures x + y + z == x + (y + z)
  {
  }

  lemma {:induction false} SplitJoin(p: string, q: string)
    ensures Split(p + "/" + q) == Split(p) + Split(q)
  {
    if p == "" {
      SplitSep(q);
      assert p + "/" + q == "/" + q;
    } else {
      var c, t := p[0], p[1..] + "/" + q;
      SplitJoin(p[1..], q);
      PeelJoin(p, q);
      SplitCons(c, p[1..]);
      SplitCons(c, t);
      hide Split;
      var v, w := Split(p[1..]), Split(q);
      TailOfBoth(v, w);
      Regroup([""], v, w);
      Regroup([[c] + v[0]], v[1..], w);
    }
  }

  lemma {:induction false} ApplyBoth(root: bool, cs: seq<string>, v: seq<string>, w: seq<string>)
    ensures ApplyAll(root, cs, v + w) == ApplyAll(root, ApplyAll(root, cs, v), w)
    decreases |v|
  {
    if v == [] {
      assert v + w == w;
    } else {
      assert (v + w)[1..] == v[1..] + w;
      ApplyBoth(root, Apply(root, cs, v[0]), v[1..], w);
    }
  }

  /** A path followed by a separator and another path is resolved one after the other. */
  lemma ResolveJoin(root: bool, cs: seq<string>, p: string, q: string)
    ensures Resolve(root, cs, p + "/" + q) == Resolve(root, Resolve(root, cs, p), q)
  {
    SplitJoin(p, q);
    ApplyBoth(root, cs, Split(p), Split(q));
  }

  lemma {:induction false} SplitHasNoSep(p: string)
    ensures forall k :: 0 <= k < |Split(p)| ==> NoSep(Split(p)[k])
  {
    if p != "" {
      SplitHasNoSep(p[1..]);
    }
  }

  lemma CleanSnoc(root: bool, cs: seq<string>, w: string)
    requires Clean(root, cs) && Stays(root, cs, w)
    ensures Clean(root, cs + [w]) && Apply(root, cs, w) == cs + [w]
    ensures Dir(root, cs + [w]) == Dir(root, cs) + w + "/"
    ensures Render(root, cs + [w], false) == Dir(root, cs) + w
  {
    assert (cs + [w])[..|cs|] == cs;
  }

  lemma ApplyOne(root: bool, cs: seq<string>, w: string)
    requires Clean(root, cs) && NoSep(w)
    ensures Clean(root, Apply(root, cs, w))
  {
    if Stays(root, cs, w) {
      CleanSnoc(root, cs, w);
    }
  }

  lemma {:induction false} ApplyKeepsClean(root: bool, cs: seq<string>, ws: seq<string>)
    requires Clean(root, cs) && forall k :: 0 <= k < |ws| ==> NoSep(ws[k])
    ensures Clean(root, ApplyAll(root, cs, ws))
    decreases |ws|
  {
    if ws != [] {
      ApplyOne(root, cs, ws[0]);
      ApplyKeepsClean(root, Apply(root, cs, ws[0]), ws[1..]);
    }
  }

  /** No name of a resolved path is empty or "."; ".." remains only at the start of a relative one. */
  lemma ResolveIsClean(root: bool, cs: seq<string>, p: string)
    requires Clean(root, cs)
    ensures Clean(root, Resolve(root, cs, p))
  {
    SplitHasNoSep(p);
    ApplyKeepsClean(root, cs, Split(p));
  }

  lemma {:induction false} DirShape(root: bool, cs: seq<string>)
    requires Clean(root, cs)
    ensures cs == [] || EndsInSep(Dir(root, cs))
    ensures IsAbs(Dir(root, cs)) <==> root
  {
    if cs != [] {
      DirShape(root, cs[..|cs| - 1]);
    }
  }

  lemma {:induction false} ResolveDir(root: bool, cs: seq<string>)
    requires Clean(root, cs)
    ensures Resolve(root, [], Dir(root, cs)) == cs
  {
    hide Resolve;
    if cs == [] {
      ResolveWord(root, [], "", "");
      assert "" + "/" + "" == "/";
    } else {
      LastName(root, cs);
      hide Clean, Dir, Apply;
      var init, last := cs[..|cs| - 1], cs[|cs| - 1];
      ResolveDir(root, init);
      DirShape(root, init);
      ResolveStep(root, Dir(root, init), init, last);
    }
  }

  lemma LastName(root: bool, cs: seq<string>)
    requires Clean(root, cs) && cs != []
    ensures var init, last := cs[..|cs| - 1], cs[|cs| - 1];
      && Clean(root, init) && NoSep(last) && Apply(root, init, last) == cs
      && Dir(root, cs) == Dir(root, init) + last + "/"
  {
    CleanSnoc(root, cs[..|cs| - 1], cs[|cs| - 1]);
    assert cs[..|cs| - 1] + [cs[|cs| - 1]] == cs;
  }

  lemma ResolveStep(root: bool, d: string, cs: seq<string>, w: string)
    requires Resolve(root, [], d) == cs && NoSep(w) && (d == "" || EndsInSep(d))
    ensures Resolve(root, [], d + w + "/") == Apply(root, cs, w)
  {
    hide Resolve, Apply;
    DirWord(root, d, cs, w);
    var v := Apply(root, cs, w);
    NothingApplied(root, v);
    ResolveWord(root, v, "", "");
    ResolveJoin(root, [], d + w, "");
    assert d + w + "/" + "" == d + w + "/";
  }

  lemma NothingApplied(root: bool, cs: seq<string>)
    ensures Apply(root, cs, "") == cs
  {
  }

  /** A name written after a directory. */
  lemma DirWord(root: bool, d: string, cs: seq<string>, w: string)
    requires Resolve(root, [], d) == cs && NoSep(w) && (d == "" || EndsInSep(d))
    ensures Resolve(root, [], d + w) == Apply(root, cs, w)
  {
    hide Resolve;
    if d == "" {
      ResolveWord(root, [], "", "");
      ResolveWord(root, [], w, "");
      assert d + w == w;
    } else {
      var e := d[..|d| - 1];
      assert d == e + "/" && d == e + "/" + "" && d + w == e + "/" + w;
      ResolveJoin(root, [], e, "");
      ResolveWord(root, Resolve(root, [], e), "", "");
      ResolveJoin(root, [], e, w);
      ResolveWord(root, cs, w, "");
    }
  }

  /** Reading a written path back. */
  lemma ResolveRender(root: bool, cs: seq<string>, trailing: bool)
    requires Clean(root, cs)
    ensures var p := Render(root, cs, trailing);
      && Resolve(root, [], p) == cs
      && (IsAbs(p) <==> root) && p != ""
      && (EndsInSep(p) <==> trailing || (root && cs == []))
  {
    hide Resolve;
    if cs == [] {
      ResolveWord(root, [], ".", "");
      ResolveWord(root, [], "", "");
      assert "." + "/" + "" == "./" && "" + "/" + "" == "/";
    } else if trailing {
      ResolveDir(root, cs);
      DirShape(root, cs);
    } else {
      ResolveStem(root, cs[..|cs| - 1], cs[|cs| - 1]);
    }
  }

  lemma ResolveStem(root: bool, cs: seq<string>, w: string)
    requires Clean(root, cs) && Stays(root, cs, w)
    ensures var p := Dir(root, cs) + w;
      Resolve(root, [], p) == cs + [w] && (IsAbs(p) <==> root) && !EndsInSep(p)
  {
    ResolveDir(root, cs);
    DirShape(root, cs);
    CleanSnoc(root, cs, w);
    DirWord(root, Dir(root, cs), cs, w);
    hide Resolve, Clean, Dir;
    var p := Dir(root, cs) + w;
    assert p[|p| - 1] == w[|w| - 1];
    assert p[0] == if Dir(root, cs) == "" then w[0] else Dir(root, cs)[0];
  }

  /** A canonical path names the same directory, and is a fixed point. */
  lemma CanonicalIdempotent(p: string)
    ensures Canonical(Canonical(p)) == Canonical(p)
    ensures Names(Canonical(p)) == Names(p)
    ensures IsAbs(Canonical(p)) == IsAbs(p) && Canonical(p) != ""
  {
    ResolveIsClean(IsAbs(p), [], p);
    ResolveRender(IsAbs(p), Names(p), EndsInSep(p));
  }

  // ---- What the components do ----

  /** A component that is a name of its own. */
  predicate Plain(w: string) {
    w != "" && w != "." && w != ".." && forall k :: 0 <= k < |w| ==> w[k] != '/'
  }

  /** A name leads one directory down; an empty component and "." change nothing; a name and ".." cancel. */
  lemma ComponentLaws(root: bool, cs: seq<string>, p: string, w: string)
    requires Plain(w)
    ensures var r := Resolve(root, cs, p);
      && Resolve(root, cs, p + "/" + w) == r + [w]
      && Resolve(root, cs, p + "/") == r && Resolve(root, cs, p + "/.") == r
      && Resolve(root, cs, p + "/" + w + "/..") == r
  {
    hide Resolve;
    var r := Resolve(root, cs, p);
    var q := p + "/" + w;
    ResolveJoin(root, cs, p, w);
    ResolveWord(root, r, w, "");
    ResolveJoin(root, cs, p, "");
    ResolveWord(root, r, "", "");
    ResolveJoin(root, cs, p, ".");
    ResolveWord(root, r, ".", "");
    ResolveJoin(root, cs, q, "..");
    ResolveWord(root, r + [w], "..", "");
    assert p + "/" + "" == p + "/" && p + "/" + "." == p + "/." && q + "/" + ".." == q + "/..";
    assert (r + [w])[..|r|] == r;
  }

  /** At the root ".." stays there; at the start of a relative path, and behind another one there, it is kept. */
  lemma StartLaws(p: string, up: seq<string>)
    requires forall k :: 0 <= k < |up| ==> up[k] == ".."
    ensures Resolve(true, [], "..") == [] && Resolve(true, [], "") == [] && Resolve(false, [], "") == []
    ensures Resolve(false, up, "..") == up + [".."]
    ensures Resolve(true, [], p) == [] ==> Resolve(true, [], p + "/..") == []
    ensures Resolve(false, [], p) == up ==> Resolve(false, [], p + "/..") == up + [".."]
  {
    hide Resolve;
    ResolveWord(true, [], "..", "");
    ResolveWord(true, [], "", "");
    ResolveWord(false, [], "", "");
    ResolveWord(false, up, "..", "");
    ResolveJoin(true, [], p, "..");
    ResolveJoin(false, [], p, "..");
    assert p + "/" + ".." == p + "/..";
    assert up == [] ==> up + [".."] == [".."];
  }

  /** How lists of names are written. */
  lemma WrittenLaws(root: bool, cs: seq<string>, w: string)
    ensures Dir(true, []) == "/" && Dir(false, []) == "" && Dir(root, cs + [w]) == Dir(root, cs) + w + "/"
    ensures Render(true, [], true) == Render(true, [], false) == "/"
    ensures Render(false, [], true) == "./" && Render(false, [], false) == "."
    ensures Render(root, cs + [w], true) == Dir(root, cs) + w + "/"
    ensures Render(root, cs + [w], false) == Dir(root, cs) + w
  {
    assert (cs + [w])[..|cs|] == cs;
  }

  /** A path with every kind of component. */
  lemma CanonicalExample()
    ensures Canonical("/./foo/bar//gazonk/../") == "/foo/bar/"
  {
    hide Resolve, Dir, Render;
    StartLaws("", []);
    ComponentLaws(true, [], "", "foo");
    assert "" + "/." == "/.";
    ComponentLaws(true, [], "/.", "foo");
    assert "/." + "/" + "foo" == "/./foo" && [] + ["foo"] == ["foo"];
    ComponentLaws(true, [], "/./foo", "bar");
    assert "/./foo" + "/" + "bar" == "/./foo/bar" && ["foo"] + ["bar"] == ["foo", "bar"];
    ComponentLaws(true, [], "/./foo/bar", "gazonk");
    assert "/./foo/bar" + "/" == "/./foo/bar/";
    ComponentLaws(true, [], "/./foo/bar/", "gazonk");
    var p := "/./foo/bar//gazonk/..";
    assert "/./foo/bar/" + "/" + "gazonk" + "/.." == p;
    ComponentLaws(true, [], p, "foo");
    assert p + "/" == "/./foo/bar//gazonk/../";
    WrittenLaws(true, [], "foo");
    WrittenLaws(true, ["foo"], "bar");
    assert "/" + "foo" + "/" + "bar" + "/" == "/foo/bar/";
  }

  // ---- Where a relative path goes wrong ----

  /** The words ws lead back to where a relative path started, and there an empty word, or a second "." in
      a row, comes before another separator. Dot tells that the word before was ".". */
  predicate Stumbles(cs: seq<string>, dot: bool, ws: seq<string>)
    decreases |ws|
  {
    |ws| > 1 && ((cs == [] && (ws[0] == "" || (ws[0] == "." && dot)))
                 || Stumbles(Apply(false, cs, ws[0]), ws[0] == ".", ws[1..]))
  }

  /** Appending path to the builder s0 meets the separator with an empty builder. */
  predicate StumblesOn(s0: string, path: string) {
    !IsAbs(s0) && !IsAbs(path) && Stumbles(Names(s0), false, Split(path))
  }

  /** A relative path without empty words and "." never does. */
  lemma {:induction false} PlainNeverStumbles(cs: seq<string>, dot: bool, ws: seq<string>)
    requires forall k :: 0 <= k < |ws| - 1 ==> ws[k] != "" && ws[k] != "."
    ensures !Stumbles(cs, dot, ws)
    decreases |ws|
  {
    if |ws| > 1 {
      PlainNeverStumbles(Apply(false, cs, ws[0]), ws[0] == ".", ws[1..]);
    }
  }

  lemma {:induction false} SplitDir(cs: seq<string>, x: string)
    requires Clean(false, cs)
    ensures Split(Dir(false, cs) + x) == cs + Split(x)
    ensures forall k :: 0 <= k < |cs| ==> cs[k] != "" && cs[k] != "."
  {
    hide Split;
    if cs == [] {
      assert Dir(false, cs) + x == x;
    } else {
      var init, last := cs[..|cs| - 1], cs[|cs| - 1];
      SplitDir(init, last + "/" + x);
      SplitAtSep(last, x);
      assert Dir(false, cs) + x == Dir(false, init) + (last + "/" + x);
      assert cs + Split(x) == init + ([last] + Split(x));
    }
  }

  lemma NoNamesNeverStumble(from: seq<string>, trailing: bool)
    ensures !Stumbles(from, false, Split(Render(false, [], trailing)))
  {
    SplitAtSep(".", "");
    SplitAtSep("", "");
    hide Split;
    assert "." + "/" + "" == "./";
    assert [".", ""][1..] == [""];
  }

  lemma NamesNeverStumble(from: seq<string>, cs: seq<string>, trailing: bool)
    requires Clean(false, cs) && cs != []
    ensures !Stumbles(from, false, Split(Render(false, cs, trailing)))
  {
    hide Split, Stumbles;
    var init, last := cs[..|cs| - 1], cs[|cs| - 1];
    SplitDir(cs, "");
    SplitDir(init, last);
    SplitAtSep(last, "");
    SplitSep("");
    assert Dir(false, cs) + "" == Dir(false, cs);
    var ws := Split(Render(false, cs, trailing));
    assert ws == if trailing then cs + [""] else init + [last];
    PlainNeverStumbles(from, false, ws);
  }

  /** A canonical relative path never stumbles, so combining a result again does not change it. */
  lemma CanonicalNeverStumbles(p: string)
    ensures !StumblesOn("", Canonical(p))
  {
    CanonicalIdempotent(p);
    if !IsAbs(p) {
      ResolveIsClean(false, [], p);
      hide Split, Resolve, Stumbles, Render, Clean;
      if Names(p) == [] {
        NoNamesNeverStumble(Names(""), EndsInSep(p));
      } else {
        NamesNeverStumble(Names(""), Names(p), EndsInSep(p));
      }
    }
  }

  lemma NamesOf(w0: string, w1: string, w2: string)
    ensures ApplyAll(false, [], [w0, w1, w2]) == Apply(false, Apply(false, Apply(false, [], w0), w1), w2)
  {
    hide Apply;
    assert [w0, w1, w2][1..] == [w1, w2] && [w1, w2][1..] == [w2] && [w2][1..] == [];
    var c0 := Apply(false, [], w0);
    var c1 := Apply(false, c0, w1);
    assert ApplyAll(false, c0, [w1, w2]) == ApplyAll(false, c1, [w2]);
    assert ApplyAll(false, c1, [w2]) == ApplyAll(false, Apply(false, c1, w2), []);
  }

  /** A relative path that stumbles, and what it should have led to. */
  lemma StumblingPath()
    ensures StumblesOn("", "././a") && Canonical("././a") == "a"
  {
    SplitAtSep(".", "a");
    SplitAtSep(".", "./a");
    SplitAtSep("a", "");
    assert "." + "/" + "./a" == "././a" && "." + "/" + "a" == "./a";
    var ws := Split("././a");
    hide Split;
    assert ws == [".", ".", "a"] && ws[1..] == [".", "a"];
    NamesOf(".", ".", "a");
    ResolveWord(false, [], "", "");
    assert Dir(false, []) + "a" == "a";
  }

  // ---- The editing loop ----

  const NUL := '\0'

  /** Character k of a string that ends with a null character. */
  function At(p: string, k: nat): char {
    if k < |p| then p[k] else NUL
  }

  function LastPushed(s: string): char {
    if s == "" then NUL else s[|s| - 1]
  }

  predicate EndsComponent(c: char) {
    c == '/' || c == NUL
  }

  /** A "." may be copied at the start of a relative path, unless one was copied just before. */
  predicate CopiesDot(root: bool, cs: seq<string>, dot: bool) {
    !root && cs == [] && !dot
  }

  /** A ".." may be copied at the start of a relative path. */
  predicate CopiesDotDot(root: bool, cs: seq<string>) {
    !root && (cs == [] || cs[|cs| - 1] == "..")
  }

  /** The component that starts at path[from] is one to be copied. */
  predicate StartsCopied(root: bool, cs: seq<string>, dot: bool, path: string, from: nat) {
    && (At(path, from) == '.' && EndsComponent(At(path, from + 1)) ==> CopiesDot(root, cs, dot))
    && (At(path, from) == '.' && At(path, from + 1) == '.' && EndsComponent(At(path, from + 2))
        ==> CopiesDotDot(root, cs))
  }

  /** The same of a component of which w is copied already and path[from..] is the unread rest. */
  predicate Copied(root: bool, cs: seq<string>, dot: bool, w: string, path: string, from: nat) {
    && (w == "." && EndsComponent(At(path, from)) ==> CopiesDot(root, cs, dot))
    && (w == "." && At(path, from) == '.' && EndsComponent(At(path, from + 1)) ==> CopiesDotDot(root, cs))
    && (w == ".." && EndsComponent(At(path, from)) ==> CopiesDotDot(root, cs))
  }

  /** The builder between two components. */
  predicate Between(root: bool, s: string, cs: seq<string>, dot: bool) {
    if !root && cs == [] then s == if dot then "./" else ""
    else s == Dir(root, cs) || s == Dir(root, cs) + "/"
  }

  /** Where a run of the loop is to arrive: the names, and whether it stumbles on the way. */
  datatype Goal = Goal(root: bool, names: seq<string>, bad: bool)

  /** Reading rest from the directory cs arrives there. */
  ghost predicate Leads(g: Goal, cs: seq<string>, dot: bool, rest: string) {
    && Resolve(g.root, cs, rest) == g.names
    && (g.bad <==> !g.root && Stumbles(cs, dot, Split(rest)))
  }

  /** What the copying has found out: the directory before the current component, whether its last
      word was ".", and the part w of the component that is copied. */
  datatype Place = Place(cs: seq<string>, dot: bool, w: string)

  ghost predicate Editing(g: Goal, s: string, path: string, from: nat, p: Place) {
    && from <= |path| && NUL !in path
    && Clean(g.root, p.cs) && NoSep(p.w)
    && Leads(g, p.cs, p.dot, p.w + path[from..])
    && (p.w != "" ==> s == Dir(g.root, p.cs) + p.w && Copied(g.root, p.cs, p.dot, p.w, path, from)
                      && from > 0 && path[from - 1] == p.w[|p.w| - 1])
  }

  /** The loop has copied a separator into an empty builder. */
  predicate Lost(g: Goal, s: string) {
    g.bad && !g.root && IsAbs(s)
  }

  /** Removes ending separators and "." components from the builder, then puts one separator back. */
  method Tidy(s0: string, ghost root: bool, ghost cs: seq<string>, ghost dot: bool) returns (s: string)
    requires LastPushed(s0) == '/'
    ensures IsAbs(s0) ==> IsAbs(s)
    ensures Clean(root, cs) && Between(root, s0, cs, dot) ==> s == Dir(root, cs)
  {
    hide Clean, Between, Dir;
    s := s0;
    ghost var good, stem := Clean(root, cs) && Between(root, s0, cs, dot), "";
    if good {
      stem := StemBetween(root, s0, cs, dot);
    }
    while true
      invariant |s| == |s0| ==> s == s0
      invariant IsAbs(s0) ==> s == "" || IsAbs(s)
      invariant good ==> s == s0
      decreases |s|
    {
      var t := s;
      while |t| > 0 && LastPushed(t) == '/'
        invariant t <= s && (|t| == |s0| ==> t == s0)
        invariant good ==> t == stem || t == stem + "/" || t == stem + "//"
        decreases |t|
      {
        t := t[..|t| - 1];
      }
      assert IsAbs(s0) ==> t == "" || IsAbs(t);
      s := t;
      if LastPushed(s) == '.' {
        if |s| == 1 {
          return "";
        }
        if s[|s| - 2] == '/' {
          s := s[..|s| - 2];
          continue;
        }
      }
      s := s + "/";
      return;
    }
  }

  /** What is left of the builder without its ending separators. */
  lemma StemBetween(root: bool, s: string, cs: seq<string>, dot: bool) returns (stem: string)
    requires Clean(root, cs) && Between(root, s, cs, dot) && LastPushed(s) == '/'
    ensures (s == stem + "/" || s == stem + "//") && LastPushed(stem) != '/'
    ensures LastPushed(stem) == '.' ==> |stem| == 1 || stem[|stem| - 2] != '/'
    ensures Dir(root, cs) == if stem == "." then "" else stem + "/"
  {
    if root || cs != [] {
      StemOf(root, cs);
      stem := Dir(root, cs)[..|Dir(root, cs)| - 1];
    } else {
      stem := ".";
    }
  }

  /** Without its last separator a directory does not end in a separator, nor in a "." component. */
  lemma StemOf(root: bool, cs: seq<string>)
    requires Clean(root, cs) && (root || cs != [])
    ensures Dir(root, cs) != ""
    ensures var stem := Dir(root, cs)[..|Dir(root, cs)| - 1];
      && Dir(root, cs) == stem + "/"
      && LastPushed(stem) != '/'
      && (LastPushed(stem) == '.' ==> |stem| > 1 && stem[|stem| - 2] != '/')
  {
    if cs != [] {
      var last := cs[|cs| - 1];
      var front := Dir(root, cs[..|cs| - 1]);
      assert Dir(root, cs)[..|Dir(root, cs)| - 1] == front + last;
      assert |last| == 1 ==> last == [last[0]];
    }
  }

  function Parent(cs: seq<string>): seq<string> {
    if cs == [] then [] else cs[..|cs| - 1]
  }

  /** Where the parent of the directory written in s ends; keep tells that the last name is "..". */
  method ParentEnd(s: string, abs: nat, ghost root: bool, ghost cs: seq<string>) returns (tmp: nat, keep: bool)
    requires s != "" && abs <= 1
    ensures IsAbs(s) ==> tmp > 0
    ensures tmp <= |s|
    ensures Clean(root, cs) && s == Dir(root, cs) && (abs == 1 <==> root) ==>
      tmp == |Dir(root, Parent(cs))| && (keep <==> CopiesDotDot(root, cs))
  {
    hide Clean;
    var t := |s| - 1;
    if t != 0 {
      t := t - 1;
      while t >= 0 && s[t] != '/'
        invariant -1 <= t < |s| - 1
        invariant forall k :: t < k < |s| - 1 ==> s[k] != '/'
      {
        t := t - 1;
      }
      t := t + 1;
    } else if s[0] == '/' {
      t := t + 1;
    }
    tmp, keep := t, false;
    ghost var good := Clean(root, cs) && s == Dir(root, cs);
    if good {
      ParentIs(root, cs, tmp);
      LastIsDotDot(root, cs, tmp);
      RootNames(root, cs);
    }
    if tmp < abs {
      tmp := abs;
    } else if tmp + 1 < |s| && s[tmp] == '.' {
      keep := s[tmp + 1] == '.' && (tmp + 2 == |s| || s[tmp + 2] == '/');
    }
  }

  /** A directory is its parent, its last name and a separator. */
  lemma DirParts(root: bool, cs: seq<string>)
    requires Clean(root, cs) && cs != []
    ensures var front, last := Dir(root, Parent(cs)), cs[|cs| - 1];
      && Dir(root, cs) == front + last + "/"
      && Stays(root, Parent(cs), last)
      && (front == "" || LastPushed(front) == '/')
  {
    if |cs| > 1 || root {
      StemOf(root, Parent(cs));
    }
  }

  lemma ParentIs(root: bool, cs: seq<string>, t: nat)
    requires Clean(root, cs) && t <= |Dir(root, cs)| && Dir(root, cs) != ""
    requires |Dir(root, cs)| == 1 ==> t == 1
    requires |Dir(root, cs)| > 1 ==> t < |Dir(root, cs)| && (t > 0 ==> Dir(root, cs)[t - 1] == '/')
    requires |Dir(root, cs)| > 1 ==> forall k :: t <= k < |Dir(root, cs)| - 1 ==> Dir(root, cs)[k] != '/'
    ensures t == |Dir(root, Parent(cs))|
  {
    if cs != [] {
      DirParts(root, cs);
      var d, front, last := Dir(root, cs), Dir(root, Parent(cs)), cs[|cs| - 1];
      hide Dir, Clean;
      assert front != "" ==> d[|front| - 1] == front[|front| - 1] == '/';
      assert forall k :: |front| <= k < |d| - 1 ==> d[k] == last[k - |front|] != '/';
    }
  }

  /** The test for a last name of "..". */
  lemma LastIsDotDot(root: bool, cs: seq<string>, tmp: nat)
    requires Clean(root, cs) && tmp == |Dir(root, Parent(cs))|
    ensures var s := Dir(root, cs);
      (tmp + 1 < |s| && s[tmp] == '.' && s[tmp + 1] == '.' && (tmp + 2 == |s| || s[tmp + 2] == '/'))
      <==> cs != [] && cs[|cs| - 1] == ".."
  {
    if cs != [] {
      DirParts(root, cs);
      var d, front, last := Dir(root, cs), Dir(root, Parent(cs)), cs[|cs| - 1];
      hide Dir, Clean;
      assert d == front + (last + "/");
      assert forall k :: 0 <= k <= |last| ==> d[tmp + k] == (last + "/")[k];
      assert d[tmp] == d[tmp + 0];
      if |last| == 2 {
        assert last == [last[0], last[1]];
      }
    }
  }

  lemma RootNames(root: bool, cs: seq<string>)
    requires Clean(root, cs)
    ensures root ==> |Dir(root, Parent(cs))| >= 1 && (cs != [] ==> cs[|cs| - 1] != "..")
  {
  }

  lemma DropParent(root: bool, cs: seq<string>)
    requires Clean(root, cs) && (root || (cs != [] && cs[|cs| - 1] != ".."))
    ensures Apply(root, cs, "..") == Parent(cs) && Clean(root, Parent(cs))
    ensures Dir(root, Parent(cs)) <= Dir(root, cs)
  {
    if cs != [] {
      DirParts(root, cs);
      var front, last := Dir(root, Parent(cs)), cs[|cs| - 1];
      hide Dir;
      assert front <= front + last + "/";
    }
  }

  // ---- Steps of the loop ----

  /** A component and the separator behind it. */
  lemma LeadsWord(g: Goal, cs: seq<string>, dot: bool, w: string, r: string)
    requires NoSep(w)
    ensures Leads(g, cs, dot, w + "/" + r)
      <==> if !g.root && cs == [] && (w == "" || (w == "." && dot))
           then g.bad && Resolve(g.root, Apply(g.root, cs, w), r) == g.names
           else Leads(g, Apply(g.root, cs, w), w == ".", r)
  {
    ResolveWord(g.root, cs, w, r);
    SplitAtSep(w, r);
    hide Split, Resolve;
    assert ([w] + Split(r))[1..] == Split(r);
  }

  /** The last component. */
  lemma LeadsEnd(g: Goal, cs: seq<string>, dot: bool, w: string)
    requires NoSep(w)
    ensures Leads(g, cs, dot, w) <==> Apply(g.root, cs, w) == g.names && !g.bad
  {
    ResolveWord(g.root, cs, w, "");
    SplitAtSep(w, "");
  }

  lemma Advance(path: string, from: nat, w: string)
    requires from < |path|
    ensures w + path[from..] == (w + [path[from]]) + path[from + 1..]
    ensures path[from] == '/' ==> w + path[from..] == w + "/" + path[from + 1..]
  {
  }

  /** A "." in front of a separator or the end is passed over; the separator is left to be copied. */
  lemma SkipDot(g: Goal, path: string, from: nat, cs: seq<string>, dot: bool)
    requires from < |path| && path[from] == '.' && NUL !in path && EndsComponent(At(path, from + 1))
    requires g.root || cs != [] || dot
    requires Leads(g, cs, dot, path[from..])
    ensures Leads(g, cs, false, path[from + 1..])
  {
    hide Leads;
    var next := from + 1;
    assert path[from..] == "." + path[next..];
    if next < |path| {
      assert path[next] in path;
      var r := path[next + 1..];
      Advance(path, next, ".");
      Advance(path, next, "");
      assert "" + path[next..] == path[next..];
      LeadsWord(g, cs, dot, ".", r);
      LeadsWord(g, cs, false, "", r);
      if g.root || cs != [] {
        DotIrrelevant(g, cs, r);
      }
    } else {
      assert path[from..] == "." && path[next..] == "";
      LeadsEnd(g, cs, dot, ".");
      LeadsEnd(g, cs, false, "");
    }
  }

  lemma DotDotAhead(path: string, from: nat, next: nat)
    requires from + 1 < |path| && path[from] == '.' && path[from + 1] == '.' && NUL !in path
    requires EndsComponent(At(path, from + 2))
    requires next == from + if At(path, from + 2) != NUL then 3 else 2
    ensures next <= |path|
    ensures if from + 2 < |path| then path[from..] == ".." + "/" + path[next..]
            else path[from..] == ".." && path[next..] == ""
  {
    if from + 2 < |path| {
      assert path[from + 2] in path;
    }
  }

  /** A ".." is passed over together with the separator behind it. */
  lemma SkipDotDot(g: Goal, path: string, from: nat, next: nat, cs: seq<string>, dot: bool)
    requires from + 1 < |path| && path[from] == '.' && path[from + 1] == '.' && NUL !in path
    requires EndsComponent(At(path, from + 2)) && Clean(g.root, cs)
    requires g.root || (cs != [] && cs[|cs| - 1] != "..")
    requires Leads(g, cs, dot, path[from..])
    requires next == from + if At(path, from + 2) != NUL then 3 else 2
    ensures Clean(g.root, Parent(cs)) && Dir(g.root, Parent(cs)) <= Dir(g.root, cs)
    ensures next <= |path| && Leads(g, Parent(cs), false, path[next..])
  {
    hide Clean, Leads, Dir;
    DropParent(g.root, cs);
    DotDotAhead(path, from, next);
    if from + 2 < |path| {
      LeadsWord(g, cs, dot, "..", path[next..]);
    } else {
      LeadsEnd(g, cs, dot, "..");
      LeadsEnd(g, Parent(cs), false, "");
    }
  }

  lemma DotIrrelevant(g: Goal, cs: seq<string>, r: string)
    requires g.root || cs != []
    ensures Leads(g, cs, true, r) == Leads(g, cs, false, r)
  {
  }

  /** A "." or ".." at the start of a component; again tells that it was dealt with. */
  method DotStep(s0: string, path: string, from0: nat, abs: nat, ghost good: bool, ghost g: Goal, ghost p0: Place)
    returns (s: string, from: nat, again: bool, ghost p: Place)
    requires from0 <= |path| && abs <= 1
    requires good ==> Editing(g, s0, path, from0, p0) && p0.w == "" && s0 == Dir(g.root, p0.cs)
    requires good ==> (g.root || p0.cs != [] || p0.dot) && (abs == 1 <==> g.root)
    ensures from0 <= from <= |path| && (again ==> from0 < from)
    ensures IsAbs(s0) ==> IsAbs(s)
    ensures good && again ==> Editing(g, s, path, from, p) && p == Place(p.cs, false, "") && s == Dir(g.root, p.cs)
    ensures !again ==> s == s0 && from == from0 && p == p0
    ensures good && !again ==> StartsCopied(g.root, p.cs, p.dot, path, from)
  {
    hide Leads, Clean;
    s, from, again, p := s0, from0, false, p0;
    if from < |path| && path[from] == '.' {
      var c2 := At(path, from + 1);
      if good {
        assert "" + path[from..] == path[from..];
      }
      if c2 == '.' {
        var c3 := At(path, from + 2);
        if s != "" && EndsComponent(c3) {
          var tmp, keep := ParentEnd(s, abs, g.root, p.cs);
          if !keep {
            if good {
              SkipDotDot(g, path, from, from + if c3 != NUL then 3 else 2, p.cs, p.dot);
            }
            from := from + if c3 != NUL then 3 else 2;
            s := s[..tmp];
            again := true;
            p := Place(Parent(p.cs), false, "");
            assert "" + path[from..] == path[from..];
          }
        }
      } else if c2 == NUL || c2 == '/' {
        if good {
          SkipDot(g, path, from, p.cs, p.dot);
          assert "" + path[from + 1..] == path[from + 1..];
        }
        from := from + 1;
        again := true;
        p := Place(p.cs, false, "");
      }
    }
  }

  /** Copying a character of a component. */
  lemma PushChar(g: Goal, s: string, path: string, from: nat, p: Place) returns (p': Place)
    requires Editing(g, s, path, from, p) && from < |path| && path[from] != '/'
    requires p.w == "" ==> s == Dir(g.root, p.cs) && StartsCopied(g.root, p.cs, p.dot, path, from)
    ensures Editing(g, s + [path[from]], path, from + 1, p') && p'.w != ""
  {
    hide Leads, Clean;
    p' := p.(w := p.w + [path[from]]);
    Advance(path, from, p.w);
    CopiedGrows(g.root, p.cs, p.dot, p.w, path, from);
    hide Copied, StartsCopied;
    assert s + [path[from]] == Dir(g.root, p.cs) + p'.w;
  }

  /** Copying a separator. */
  lemma PushSep(g: Goal, s: string, path: string, from: nat, p: Place) returns (p': Place)
    requires Editing(g, s, path, from, p) && from < |path| && path[from] == '/'
    requires p.w == "" ==> s == Dir(g.root, p.cs)
    ensures Lost(g, s + "/")
      || (Editing(g, s + "/", path, from + 1, p') && p'.w == "" && Between(g.root, s + "/", p'.cs, p'.dot))
  {
    hide Leads, Clean;
    var w, r := p.w, path[from + 1..];
    Advance(path, from, w);
    LeadsWord(g, p.cs, p.dot, w, r);
    p' := Place(Apply(g.root, p.cs, w), w == ".", "");
    assert "" + r == r;
    if w != "" && w != "." {
      CleanSnoc(g.root, p.cs, w);
    }
  }

  lemma CopiedGrows(root: bool, cs: seq<string>, dot: bool, w: string, path: string, from: nat)
    requires from < |path| && path[from] != '/'
    requires if w == "" then StartsCopied(root, cs, dot, path, from) else Copied(root, cs, dot, w, path, from)
    ensures Copied(root, cs, dot, w + [path[from]], path, from + 1)
  {
    var v := w + [path[from]];
    assert v[|w|] == path[from] && v[..|w|] == w;
    if v == "." {
      assert w == "";
    } else if v == ".." {
      assert v[..1] == ".";
    }
  }

  /** The builder ends in a separator exactly between two names, except where nothing is copied yet. */
  lemma SepMeansBetween(g: Goal, s: string, path: string, from: nat, p: Place)
    requires Editing(g, s, path, from, p) && (p.w == "" ==> Between(g.root, s, p.cs, p.dot))
    ensures Clean(g.root, p.cs)
    ensures LastPushed(s) == '/' ==> p.w == "" && (g.root || p.cs != [] || p.dot)
    ensures LastPushed(s) != '/' && p.w == "" ==>
      s == Dir(g.root, p.cs) && from <= |path| && StartsCopied(g.root, p.cs, p.dot, path, from)
  {
    if p.w != "" {
      assert LastPushed(s) == p.w[|p.w| - 1];
    } else if p.cs != [] {
      DirParts(g.root, p.cs);
    }
  }

  /** The copying loop. */
  method Copy(s0: string, path: string, from0: nat, abs: nat, ghost good: bool, ghost g: Goal, ghost p0: Place)
    returns (s: string, ghost p: Place, ghost lost: bool)
    requires from0 <= |path| && abs <= 1 && (good ==> (abs == 1 <==> g.root))
    requires good ==> Editing(g, s0, path, from0, p0) && (p0.w == "" ==> Between(g.root, s0, p0.cs, p0.dot))
    ensures IsAbs(s0) ==> IsAbs(s)
    ensures good && lost ==> Lost(g, s)
    ensures good && !lost ==> Editing(g, s, path, |path|, p) && (p.w == "" ==> s == Dir(g.root, p.cs))
  {
    hide Editing, StartsCopied, Between, Clean, Dir;
    s, p, lost := s0, p0, false;
    var from := from0;
    while true
      invariant from <= |path|
      invariant IsAbs(s0) ==> IsAbs(s)
      invariant good && lost ==> Lost(g, s)
      invariant good && !lost ==> Editing(g, s, path, from, p) && (p.w == "" ==> Between(g.root, s, p.cs, p.dot))
      decreases |path| - from
    {
      ghost var on := good && !lost;
      if on {
        SepMeansBetween(g, s, path, from, p);
      }
      if LastPushed(s) == '/' {
        if on {
          EditingBetween(g, s, path, from, p);
        }
        s := Tidy(s, g.root, p.cs, p.dot);
        var again: bool;
        s, from, again, p := DotStep(s, path, from, abs, on, g, p);
        if again {
          if on {
            AtDirectory(g.root, p.cs);
          }
          continue;
        }
      }
      if from >= |path| {
        break;
      }
      if on {
        lost := path[from] == '/' && Lost(g, s + "/");
        if path[from] == '/' {
          p := PushSep(g, s, path, from, p);
        } else {
          p := PushChar(g, s, path, from, p);
        }
      }
      s := s + [path[from]];
      from := from + 1;
    }
  }

  lemma EditingBetween(g: Goal, s: string, path: string, from: nat, p: Place)
    requires Editing(g, s, path, from, p) && p.w == ""
    ensures forall t :: Editing(g, t, path, from, p)
  {
  }

  lemma AtDirectory(root: bool, cs: seq<string>)
    ensures Between(root, Dir(root, cs), cs, false)
  {
  }

  /** The trailing separator and the empty result. */
  method FinishPath(s0: string, path: string, abs: nat, ghost good: bool, ghost g: Goal, ghost p: Place)
    returns (s: string)
    requires path != "" && abs <= 1 && (good ==> (abs == 1 <==> g.root))
    requires good ==> Editing(g, s0, path, |path|, p) && (p.w == "" ==> s0 == Dir(g.root, p.cs))
    ensures IsAbs(s0) ==> IsAbs(s)
    ensures good ==> s == Render(g.root, g.names, EndsInSep(path)) && !g.bad
  {
    hide Editing;
    s := s0;
    if good {
      EditedIs(s0, path, g, p);
    }
    hide Dir, Render;
    if |s| > 1 && |s| > abs && path[|path| - 1] != '/' && LastPushed(s) == '/' {
      s := s[..|s| - 1];
    }
    if s == "" {
      if abs != 0 {
        s := s + "/";
      } else {
        s := s + ".";
        if path[|path| - 1] == '/' {
          s := s + "/";
        }
      }
    }
  }

  /** What the builder holds when everything is read. */
  lemma EditedIs(s: string, path: string, g: Goal, p: Place)
    requires path != "" && Editing(g, s, path, |path|, p) && (p.w == "" ==> s == Dir(g.root, p.cs))
    ensures !g.bad
    ensures if g.names == [] && (g.root || p.w == "") then s == if g.root then "/" else ""
            else s == Render(g.root, g.names, p.w == "")
    ensures p.w != "" ==> s != "" && LastPushed(s) != '/' && !EndsInSep(path)
    ensures p.w == "" && g.names != [] ==>
      |s| > 1 && LastPushed(s) == '/' && s[..|s| - 1] == Render(g.root, g.names, false)
    ensures g.names == [] ==> forall b :: Render(g.root, [], b) == if g.root then "/" else if b then "./" else "."
    ensures g.root && p.w != "" ==> g.names != []
  {
    var cs, w := p.cs, p.w;
    assert path[|path|..] == "" && w + "" == w;
    LeadsEnd(g, cs, p.dot, w);
    if w != "" {
      assert LastPushed(s) == w[|w| - 1];
      if w != "." {
        CleanSnoc(g.root, cs, w);
      }
    } else if cs != [] {
      DirParts(g.root, cs);
    }
  }

  /** A path the loop may start from: nothing yet, or a canonical path. */
  predicate Builder(s0: string) {
    s0 == "" || Canonical(s0) == s0
  }

  /** The path relative to s0. */
  function Under(s0: string, path: string): string {
    if s0 == "" then path else s0 + "/" + path
  }

  /** Adds a path to the builder. An absolute path replaces what the builder holds; a relative one is
      resolved from there, and comes out right exactly when it does not stumble. */
  method AppendPath(s0: string, path: string) returns (s: string)
    ensures IsAbs(s0) || IsAbs(path) ==> IsAbs(s)
    ensures s0 == "" && path == "" ==> s == ""
    ensures NUL !in path && IsAbs(path) ==> s == Canonical(path)
    ensures NUL !in path && !IsAbs(path) && Builder(s0) && Under(s0, path) != ""
      ==> (s == Canonical(Under(s0, path)) <==> !StumblesOn(s0, path))
          && (StumblesOn(s0, path) ==> IsAbs(s))
  {
    hide Editing, Resolve, Split, Render, Between, StumblesOn;
    s := s0;
    var from: nat := 0;
    var abs: nat := if IsAbs(s) then 1 else 0;
    ghost var good := NUL !in path && (IsAbs(path) || Builder(s0));
    ghost var g, p := GoalOf(s0, path), Start(s0, path);
    if IsAbs(path) {
      s := path[..1];
      from := 1;
      abs := 1;
    }
    if s != "" && LastPushed(s) != '/' {
      s := s + "/";
    }
    if good {
      if IsAbs(path) || Under(s0, path) != "" {
        GoalIs(s0, path);
      }
      Starts(s0, path, s);
      NeverStumblesOnEmpty(s0);
    }
    if path == "" {
      return;
    }
    if |s| == 2 && s[0] == '.' {
      s := "";
    }
    ghost var lost;
    s, p, lost := Copy(s, path, from, abs, good, g, p);
    s := FinishPath(s, path, abs, good && !lost, g, p);
  }

  ghost function GoalOf(s0: string, path: string): Goal {
    if IsAbs(path) then Goal(true, Names(path), false)
    else Goal(IsAbs(s0), Resolve(IsAbs(s0), Names(s0), path), StumblesOn(s0, path))
  }

  ghost function Start(s0: string, path: string): Place {
    Place(if IsAbs(path) then [] else Names(s0), false, "")
  }

  /** Arriving at the goal is the canonical path. */
  lemma GoalIs(s0: string, path: string)
    requires IsAbs(path) || Under(s0, path) != ""
    ensures var g, p := GoalOf(s0, path), if IsAbs(path) then path else Under(s0, path);
      && Canonical(p) == Render(g.root, g.names, path == "" || EndsInSep(path))
      && IsAbs(Canonical(p)) == g.root
  {
    var p := if IsAbs(path) then path else Under(s0, path);
    CanonicalIdempotent(p);
    if !IsAbs(path) && s0 != "" {
      ResolveJoin(IsAbs(s0), [], s0, path);
      EndOfJoin(s0, path);
    } else {
      ResolveWord(false, [], "", "");
    }
  }

  /** Where the loop starts. */
  lemma Starts(s0: string, path: string, s: string)
    requires NUL !in path && (IsAbs(path) || Builder(s0))
    requires s == if IsAbs(path) then "/" else if s0 != "" && LastPushed(s0) != '/' then s0 + "/" else s0
    ensures var g, p, b := GoalOf(s0, path), Start(s0, path), if |s| == 2 && s[0] == '.' then "" else s;
      && Editing(g, b, path, if IsAbs(path) then 1 else 0, p)
      && Between(g.root, b, p.cs, p.dot)
      && (path == "" ==> s == if s0 == "" then "" else Render(g.root, g.names, true))
  {
    ResolveWord(false, [], "", "");
    if IsAbs(path) {
      ResolveWord(true, [], "", path[1..]);
      assert path == "" + "/" + path[1..] && path[1..] == "" + path[1..];
    } else {
      assert "" + path[0..] == path;
      ResolveIsClean(IsAbs(s0), [], s0);
      BuilderDir(s0, s);
      ResolveWord(IsAbs(s0), Names(s0), "", "");
    }
  }

  /** A builder with a separator at its end is a directory. */
  lemma BuilderDir(s0: string, s: string)
    requires Builder(s0) && s == if s0 != "" && LastPushed(s0) != '/' then s0 + "/" else s0
    ensures s0 != "" ==> s == Render(IsAbs(s0), Names(s0), true)
    ensures (if |s| == 2 && s[0] == '.' then "" else s) == Dir(IsAbs(s0), Names(s0))
  {
    var root, cs := IsAbs(s0), Names(s0);
    if s0 == "" {
      ResolveWord(false, [], "", "");
    } else if cs != [] {
      ResolveIsClean(root, [], s0);
      DirParts(root, cs);
      ResolveDir(root, cs);
    }
  }

  lemma EndOfJoin(p: string, q: string)
    ensures EndsInSep(p + "/" + q) <==> q == "" || EndsInSep(q)
  {
    var t := p + "/" + q;
    assert t[|t| - 1] == if q == "" then '/' else q[|q| - 1];
  }

  // ---- Several paths ----

  /** The paths written one after the other; empty ones at the front leave nothing. */
  function Joined(ps: seq<string>): string {
    if ps == [] then "" else Under(Joined(ps[..|ps| - 1]), ps[|ps| - 1])
  }

  /** Two paths. */
  lemma JoinedTwo(p: string, q: string)
    ensures Joined([p]) == p && Joined([p, q]) == if p == "" then q else p + "/" + q
  {
    assert [p][..0] == [] && [p, q][..1] == [p];
  }

  /** Some path stumbles on what the ones before it lead to. */
  predicate StumblesAlong(ps: seq<string>) {
    ps != [] && (StumblesAlong(ps[..|ps| - 1]) || StumblesOn(Joined(ps[..|ps| - 1]), ps[|ps| - 1]))
  }

  /** It makes no difference whether the front is canonical already. */
  lemma CanonicalStep(p: string, q: string)
    ensures p != "" ==> Canonical(Canonical(p) + "/" + q) == Canonical(p + "/" + q)
    ensures StumblesOn(Canonical(p), q) == StumblesOn(p, q)
  {
    CanonicalIdempotent(p);
    ResolveJoin(IsAbs(p), [], p, q);
    ResolveJoin(IsAbs(p), [], Canonical(p), q);
    EndOfJoin(Canonical(p), q);
    EndOfJoin(p, q);
  }

  /** The result is built from the path at r on: the last absolute one, or else the first. */
  predicate StartsAt(args: seq<string>, r: nat) {
    && r < |args| && (r == 0 || IsAbs(args[r]))
    && forall k :: r < k < |args| ==> !IsAbs(args[k])
  }

  /** What the builder holds after the paths ps. */
  ghost predicate Holds(s: string, ps: seq<string>) {
    && (StumblesAlong(ps) ==> IsAbs(s) && !IsAbs(Joined(ps)) && Joined(ps) != "")
    && (!StumblesAlong(ps) ==> s == if Joined(ps) == "" then "" else Canonical(Joined(ps)))
  }

  lemma HoldsNothing()
    ensures Holds("", [])
  {
  }

  lemma HoldsStep(s0: string, ps: seq<string>, q: string, s: string)
    requires Holds(s0, ps) && (IsAbs(q) ==> ps == [])
    requires IsAbs(s0) || IsAbs(q) ==> IsAbs(s)
    requires s0 == "" && q == "" ==> s == ""
    requires IsAbs(q) ==> s == Canonical(q)
    requires !IsAbs(q) && Builder(s0) && Under(s0, q) != ""
      ==> (s == Canonical(Under(s0, q)) <==> !StumblesOn(s0, q)) && (StumblesOn(s0, q) ==> IsAbs(s))
    ensures Holds(s, ps + [q])
  {
    var j := Joined(ps);
    assert (ps + [q])[..|ps|] == ps;
    CanonicalIdempotent(j);
    CanonicalStep(j, q);
    ResolveWord(false, [], "", "");
    hide Canonical, Names, Stumbles;
    if q == "" {
      NeverStumblesOnEmpty(s0);
      NeverStumblesOnEmpty(j);
    }
  }

  lemma NeverStumblesOnEmpty(s0: string)
    ensures !StumblesOn(s0, "")
  {
  }

  lemma HoldsWhat(s: string, ps: seq<string>)
    requires Holds(s, ps)
    ensures if Joined(ps) == "" then s == ""
            else (s == Canonical(Joined(ps)) <==> !StumblesAlong(ps)) && (StumblesAlong(ps) ==> IsAbs(s))
  {
    CanonicalIdempotent(Joined(ps));
    hide Canonical;
  }

  /** Combines the paths from the last absolute one on. */
  method CombinePath(args: seq<string>) returns (ret: string)
    requires args != []
    ensures forall r: nat :: StartsAt(args, r) && (forall k :: r <= k < |args| ==> NUL !in args[k]) ==>
      if Joined(args[r..]) == "" then ret == ""
      else (ret == Canonical(Joined(args[r..])) <==> !StumblesAlong(args[r..]))
           && (StumblesAlong(args[r..]) ==> IsAbs(ret))
  {
    hide Canonical, Joined, StumblesAlong, Holds;
    var root := 0;
    var e := |args| - 1;
    while e > root
      invariant root == 0 && 0 <= e < |args|
      invariant forall k :: e < k < |args| ==> !IsAbs(args[k])
    {
      if IsAbs(args[e]) {
        root := e;
        break;
      }
      e := e - 1;
    }
    ghost var first := root;
    ghost var good := forall k :: first <= k < |args| ==> NUL !in args[k];
    ret := AppendPath("", args[root]);
    if good {
      HoldsNothing();
      HoldsStep("", [], args[root], ret);
      assert args[first..first + 1] == [] + [args[first]];
    }
    root := root + 1;
    while root < |args|
      invariant first < root <= |args|
      invariant good ==> Holds(ret, args[first..root])
    {
      ghost var before := ret;
      ret := AppendPath(ret, args[root]);
      if good {
        HoldsStep(before, args[first..root], args[root], ret);
        assert args[first..root + 1] == args[first..root] + [args[root]];
      }
      root := root + 1;
    }
    assert args[first..root] == args[first..];
    if good {
      HoldsWhat(ret, args[first..]);
    }
  }
}
