/** The validator for UTF-8, which collects the bits of a sequence first and looks at the value
    afterwards, against the grammar. */
module Utf8Validate {
  import opened Utf8
  import opened Utf8Codec

  // ---- Surrogates ----

  predicate High(c: nat) {
    0xd800 <= c <= 0xdbff
  }

  predicate Low(c: nat) {
    0xdc00 <= c <= 0xdfff
  }

  /** Somewhere in s a high surrogate has had no low surrogate after it yet. */
  ghost predicate Waiting(s: seq<nat>) {
    exists i :: 0 <= i < |s| && High(s[i]) && forall k :: i < k < |s| ==> !Low(s[k])
  }

  /** A plain character comes while a high surrogate is waiting. */
  ghost predicate Stray(s: seq<nat>) {
    exists j :: 0 <= j < |s| && s[j] < 0x80 && Waiting(s[..j])
  }

  lemma WaitingStep(s: seq<nat>, c: nat)
    ensures Waiting(s + [c]) <==> High(c) || (Waiting(s) && !Low(c))
  {
    var t := s + [c];
    if High(c) {
      assert High(t[|s|]);
    } else if Waiting(s) && !Low(c) {
      var i :| 0 <= i < |s| && High(s[i]) && forall k :: i < k < |s| ==> !Low(s[k]);
      assert High(t[i]);
    }
    if Waiting(t) {
      var i :| 0 <= i < |t| && High(t[i]) && forall k :: i < k < |t| ==> !Low(t[k]);
      if i < |s| {
        assert High(s[i]) && forall k :: i < k < |s| ==> s[k] == t[k];
        assert !Low(t[|s|]);
      }
    }
  }

  lemma StrayStep(s: seq<nat>, c: nat)
    ensures Stray(s + [c]) <==> Stray(s) || (c < 0x80 && Waiting(s))
  {
    var t := s + [c];
    assert t[..|s|] == s;
    assert forall j :: 0 <= j < |s| ==> t[..j] == s[..j];
    if Stray(s) {
      var j :| 0 <= j < |s| && s[j] < 0x80 && Waiting(s[..j]);
      assert t[j] < 0x80 && Waiting(t[..j]);
    }
    if c < 0x80 && Waiting(s) {
      assert t[|s|] < 0x80 && Waiting(t[..|s|]);
    }
  }

  lemma StrayPrefix(s: seq<nat>, t: seq<nat>)
    requires s <= t && Stray(s)
    ensures Stray(t)
  {
    var j :| 0 <= j < |s| && s[j] < 0x80 && Waiting(s[..j]);
    assert t[..j] == s[..j];
  }

  /** A high surrogate followed by a plain character is well-formed with the extension, and the
      decoder accepts it, but the validator does not. */
  lemma StrayExample()
    ensures var b := [0xed, 0xa0, 0x80, 0x41];
      WellFormed(b, true) && Decode(b, true) == [0xd800, 0x41] && Stray(Decode(b, true))
  {
    var s: seq<nat> := [0xd800, 0x41];
    assert s[1..] == [0x41] && s[1..][1..] == [];
    assert Encode(s) == [0xed, 0xa0, 0x80, 0x41] by {
      assert EncodeChar(0xd800) == [0xed, 0xa0, 0x80];
      assert EncodeChar(0x41) == [0x41];
    }
    RoundTrip(s, true);
    assert High(s[..1][0]) && s[1] < 0x80;
  }

  /** A surrogate pair before it is no reason to reject it. */
  lemma PairedExample()
    ensures var b := [0xed, 0xa0, 0x80, 0xed, 0xb0, 0x80, 0x41];
      WellFormed(b, true) && Decode(b, true) == [0xd800, 0xdc00, 0x41] && !Stray(Decode(b, true))
  {
    var s: seq<nat> := [0xd800, 0xdc00, 0x41];
    assert s[1..] == [0xdc00, 0x41] && s[1..][1..] == [0x41] && s[1..][1..][1..] == [];
    assert Encode(s) == [0xed, 0xa0, 0x80, 0xed, 0xb0, 0x80, 0x41] by {
      assert EncodeChar(0xd800) == [0xed, 0xa0, 0x80] && EncodeChar(0xdc00) == [0xed, 0xb0, 0x80];
      assert EncodeChar(0x41) == [0x41];
    }
    RoundTrip(s, true);
    assert !Waiting(s[..2]) by {
      assert s[..2] == [0xd800, 0xdc00] && Low(s[..2][1]) && !High(s[..2][1]);
    }
  }

  // ---- Collecting bits ----

  /** Number of bytes a first byte announces by its leading ones. */
  function Announced(l: Byte): (n: nat)
    requires 0xc0 <= l < 0xff
    ensures 2 <= n <= 7
  {
    if l < 0xe0 then 2 else if l < 0xf0 then 3 else if l < 0xf8 then 4 else if l < 0xfc then 5
    else if l < 0xfe then 6 else 7
  }

  /** The first byte after k shifts to the left. */
  function Shifted(l: Byte, k: nat): Byte {
    if k == 0 then l else Shifted(l, k - 1) * 2 % 0x100
  }

  lemma ShiftedIs(l: Byte)
    ensures Shifted(l, 0) == l && Shifted(l, 1) == l * 2 % 0x100 && Shifted(l, 2) == l * 4 % 0x100
    ensures Shifted(l, 3) == l * 8 % 0x100 && Shifted(l, 4) == l * 16 % 0x100
    ensures Shifted(l, 5) == l * 32 % 0x100 && Shifted(l, 6) == l * 64 % 0x100
  {
    assert Shifted(l, 0) == l;
    WrapDouble(l);
    assert Shifted(l, 2) == Shifted(l, 1) * 2 % 0x100;
    WrapDouble(l * 2);
    assert Shifted(l, 3) == Shifted(l, 2) * 2 % 0x100;
    WrapDouble(l * 4);
    assert Shifted(l, 4) == Shifted(l, 3) * 2 % 0x100;
    WrapDouble(l * 8);
    assert Shifted(l, 5) == Shifted(l, 4) * 2 % 0x100;
    WrapDouble(l * 16);
    assert Shifted(l, 6) == Shifted(l, 5) * 2 % 0x100;
    WrapDouble(l * 32);
    hide Shifted;
  }

  lemma WrapDouble(x: nat)
    ensures x % 0x100 * 2 % 0x100 == x * 2 % 0x100
  {
    var q, r := x / 0x100, x % 0x100;
    assert x * 2 == r * 2 + 0x100 * (2 * q);
    AddMultiple(r * 2, 2 * q);
  }

  lemma AddMultiple(y: nat, k: nat)
    ensures (y + 0x100 * k) % 0x100 == y % 0x100
  {
  }

  /** The bit that makes the loop go on is set exactly while bytes are announced. */
  lemma ShiftedOnes(l: Byte, k: nat)
    requires 0xc0 <= l < 0xff && k < Announced(l)
    ensures Shifted(l, k) / 64 % 2 == 1 <==> k + 1 < Announced(l)
  {
    if k < 3 {
      FirstOnes(l, k);
    } else {
      LaterOnes(l, k);
    }
  }

  lemma FirstOnes(l: Byte, k: nat)
    requires 0xc0 <= l < 0xff && k < 3 && k < Announced(l)
    ensures Shifted(l, k) / 64 % 2 == 1 <==> k + 1 < Announced(l)
  {
    ShiftedIs(l);
    hide Shifted;
    if k == 1 {
      BitOne(l);
    } else if k == 2 {
      BitTwo(l);
    }
  }

  lemma BitOne(l: Byte)
    ensures l * 2 % 0x100 / 64 % 2 == l / 32 % 2
  {
  }

  lemma BitTwo(l: Byte)
    ensures l * 4 % 0x100 / 64 % 2 == l / 16 % 2
  {
  }

  lemma LaterOnes(l: Byte, k: nat)
    requires 0xc0 <= l < 0xff && 3 <= k < Announced(l)
    ensures Shifted(l, k) / 64 % 2 == 1 <==> k + 1 < Announced(l)
  {
    ShiftedIs(l);
    hide Shifted;
    match k
    case 3 =>
    case 4 =>
    case 5 =>
    case _ =>
  }

  function Pow32(k: nat): (p: nat)
    ensures p > 0
  {
    if k == 0 then 1 else 32 * Pow32(k - 1)
  }

  lemma PowersOf32()
    ensures Pow32(1) == 0x20 && Pow32(2) == 0x400 && Pow32(3) == 0x8000
    ensures Pow32(4) == 0x10_0000 && Pow32(5) == 0x200_0000 && Pow32(6) == 0x4000_0000
  {
    assert Pow32(0) == 1;
    assert Pow32(2) == 32 * Pow32(1);
    assert Pow32(3) == 32 * Pow32(2);
    assert Pow32(4) == 32 * Pow32(3);
    assert Pow32(5) == 32 * Pow32(4);
    assert Pow32(6) == 32 * Pow32(5);
  }

  /** Masking the collected bits removes the announcing ones. */
  lemma Masked(l: Byte, tails: nat)
    requires 0xc0 <= l < 0xff && tails < Pow64(Announced(l) - 1)
    ensures var n := Announced(l);
      (l * Pow64(n - 1) + tails) % (64 * Pow32(n - 1)) == LeadBits(l, n) * Pow64(n - 1) + tails
  {
    PowersOf64();
    PowersOf32();
    hide Pow64, Pow32;
    if Announced(l) <= 3 {
      MaskedShort(l, tails);
    } else if Announced(l) <= 5 {
      MaskedMiddle(l, tails);
    } else {
      MaskedLong(l, tails);
    }
  }

  lemma MaskedShort(l: nat, tails: nat)
    ensures tails < 0x40 ==> (l * 0x40 + tails) % 0x800 == l % 32 * 0x40 + tails
    ensures tails < 0x1000 ==> (l * 0x1000 + tails) % 0x1_0000 == l % 16 * 0x1000 + tails
  {
  }

  lemma MaskedMiddle(l: nat, tails: nat)
    ensures tails < 0x4_0000 ==> (l * 0x4_0000 + tails) % 0x20_0000 == l % 8 * 0x4_0000 + tails
    ensures tails < 0x100_0000 ==> (l * 0x100_0000 + tails) % 0x400_0000 == l % 4 * 0x100_0000 + tails
  {
  }

  lemma MaskedLong(l: nat, tails: nat)
    ensures tails < 0x4000_0000 ==> (l * 0x4000_0000 + tails) % 0x8000_0000 == l % 2 * 0x4000_0000 + tails
    ensures tails < 0x10_0000_0000 ==> (l * 0x10_0000_0000 + tails) % 0x10_0000_0000 == tails
  {
  }

  lemma {:induction false} TailsBound(b: seq<Byte>, i: nat, k: nat)
    requires i + k < |b|
    ensures Tails(b, i, k) < Pow64(k)
  {
    if k > 0 {
      TailsBound(b, i, k - 1);
    }
  }

  /** The lowest value that needs n bytes, as the mask for the five highest bits tests it. */
  function Lowest(n: nat): nat
    requires n >= 2
  {
    2 * Pow32(n - 1)
  }

  /** What the validator demands of a collected value. */
  predicate GoodValue(v: nat, n: nat, ext: bool)
    requires n >= 2
  {
    Lowest(n) <= v && 0x80 <= v && (if ext then v < 0x1_0000_0000 else !IsSurrogate(v) && v < 0x11_0000)
  }

  lemma GoodSize(v: nat, n: nat, ext: bool)
    requires 2 <= n <= 7 && GoodValue(v, n, ext) && v < 64 * Pow32(n - 1)
    ensures Encodable(v, ext) && Size(v) == n
  {
    PowersOf32();
    hide Pow32;
  }

  lemma GoodFromSize(v: nat, n: nat, ext: bool)
    requires 2 <= n && Encodable(v, ext) && Size(v) == n
    ensures GoodValue(v, n, ext)
  {
    PowersOf32();
    hide Pow32;
  }

  lemma LeadByteIs(l: Byte, v: Char)
    requires 0xc0 <= l < 0xff && Size(v) == Announced(l) && Head(v, Size(v)) == LeadBits(l, Size(v))
    ensures |EncodeChar(v)| == Size(v) && EncodeChar(v)[0] == l
  {
    hide Cont;
  }

  lemma RowLength(l: Byte, ext: bool)
    requires 0xc0 <= l < 0xff
    ensures RowOf(l, ext).n == Announced(l) || RowOf(l, ext).n == 0
  {
  }

  /** The announced continuation bytes are all there. */
  ghost predicate Complete(b: seq<Byte>, i: nat)
    requires i < |b| && 0xc0 <= b[i] < 0xff
  {
    i + Announced(b[i]) <= |b| && forall k :: i < k < i + Announced(b[i]) ==> IsCont(b[k])
  }

  /** With its continuation bytes there, a sequence is well-formed exactly when its value is good. */
  lemma GoodExactly(b: seq<Byte>, i: nat, ext: bool)
    requires i < |b| && 0xc0 <= b[i] < 0xff && Complete(b, i)
    ensures var n := Announced(b[i]);
      && (SequenceAt(b, i, ext) <==> GoodValue(ValueAt(b, i, n), n, ext))
      && ValueAt(b, i, n) < 64 * Pow32(n - 1)
      && (SequenceAt(b, i, ext) ==> RowOf(b[i], ext).n == n)
  {
    var n := Announced(b[i]);
    var v := ValueAt(b, i, n);
    RowLength(b[i], ext);
    TailsBound(b, i, n - 1);
    Masked(b[i], Tails(b, i, n - 1));
    assert v < 64 * Pow32(n - 1);
    if SequenceAt(b, i, ext) {
      SequenceIsChar(b, i, ext);
      EncodedSize(v);
      GoodFromSize(v, n, ext);
    }
    if GoodValue(v, n, ext) {
      GoodSize(v, n, ext);
      hide ValueAt, RowOf, GoodValue;
      HeadAndFront(b, i, n, v);
      LeadByteIs(b[i], v);
      ValueGroups(b, i, n, v);
      SequenceBytes(b, i, n, v);
      CharIsSequence(v, ext, b, i);
    }
  }

  lemma IncompleteIsBad(b: seq<Byte>, i: nat, ext: bool)
    requires i < |b| && 0xc0 <= b[i] < 0xff && !Complete(b, i)
    ensures !SequenceAt(b, i, ext)
  {
    RowLength(b[i], ext);
    if SequenceAt(b, i, ext) {
      ContBytes(b, i, ext);
    }
  }

  // ---- The validator ----

  /** Byte i of a string that ends with a null byte. */
  function ByteAt(b: seq<Byte>, i: nat): Byte {
    if i < |b| then b[i] else 0
  }

  /** Collects the bits of the sequence at place i0. */
  method Collect(b: seq<Byte>, i0: nat) returns (ok: bool, i: nat, ch: nat, fullMask: nat, hiMask: nat)
    requires i0 < |b| && 0xc0 <= b[i0] < 0xff
    ensures ok <==> Complete(b, i0)
    ensures ok ==> i == i0 + Announced(b[i0]) - 1
                   && ch == b[i0] * Pow64(Announced(b[i0]) - 1) + Tails(b, i0, Announced(b[i0]) - 1)
                   && fullMask + 1 == 64 * Pow32(Announced(b[i0]) - 1) && hiMask == 31 * Lowest(Announced(b[i0]))
  {
    hide Announced, Shifted, Pow64, Pow32, Tails;
    CollectStarts(b, i0);
    var c := b[i0];
    ghost var n := Announced(c);
    ok, i, ch, fullMask, hiMask := true, i0, c, 0x3f, 0x3e;
    ShiftedOnes(c, 0);
    while c / 64 % 2 == 1
      invariant i0 <= i && i - i0 < n && ok && i < |b|
      invariant c == Shifted(b[i0], i - i0) && (c / 64 % 2 == 1 <==> i - i0 + 1 < n)
      invariant forall k :: i0 < k <= i ==> IsCont(b[k])
      invariant ch == b[i0] * Pow64(i - i0) + Tails(b, i0, i - i0)
      invariant fullMask + 1 == 64 * Pow32(i - i0) && hiMask == 62 * Pow32(i - i0)
      decreases n - (i - i0)
    {
      i := i + 1;
      var cc := ByteAt(b, i);
      if cc / 64 != 2 {
        return false, i, ch, fullMask, hiMask;
      }
      ShiftStep(b, i0, i - i0, ch);
      ch := ch * 64 + cc % 64;
      fullMask := fullMask * 32 + 31;
      hiMask := hiMask * 32;
      c := (c as int) * 2 % 0x100;
      ShiftedOnes(b[i0], i - i0);
    }
  }

  lemma CollectStarts(b: seq<Byte>, i: nat)
    requires i < |b|
    ensures Shifted(b[i], 0) == b[i] && Pow64(0) == 1 && Pow32(0) == 1 && Tails(b, i, 0) == 0
  {
  }

  lemma ShiftStep(b: seq<Byte>, i: nat, k: nat, ch: nat)
    requires 0 < k && i + k < |b| && ch == b[i] * Pow64(k - 1) + Tails(b, i, k - 1)
    ensures ch * 64 + b[i + k] % 64 == b[i] * Pow64(k) + Tails(b, i, k)
    ensures Pow32(k) == 32 * Pow32(k - 1) && Shifted(b[i], k) == Shifted(b[i], k - 1) * 2 % 0x100
  {
  }

  lemma {:induction false} PlainIsNotStray(s: seq<nat>)
    requires forall k :: 0 <= k < |s| ==> s[k] < 0x80
    ensures !Stray(s)
  {
    forall j | 0 <= j < |s| ensures !Waiting(s[..j]) {
      assert forall k :: 0 <= k < j ==> !High(s[..j][k]);
    }
  }

  lemma PlainAt(b: seq<Byte>, i: nat, ext: bool)
    requires i < |b| && b[i] < 0x80
    ensures SequenceAt(b, i, ext) && RowOf(b[i], ext).n == 1 && ValueAt(b, i, 1) == b[i]
  {
    PowersOf64();
  }

  lemma NoLead(b: seq<Byte>, i: nat, ext: bool)
    requires i < |b| && (0x80 <= b[i] < 0xc0 || b[i] == 0xff)
    ensures !SequenceAt(b, i, ext)
  {
  }

  /** What the validator has found out about b[..i]: the characters seen, and whether a low surrogate
      is expected. */
  ghost predicate SoFar(b: seq<Byte>, i: nat, ext: bool, seen: seq<nat>, pending: bool) {
    && i <= |b|
    && (WellFormed(b, ext) <==> WellFormedFrom(b, i, ext))
    && (WellFormed(b, ext) ==> Decode(b, ext) == seen + DecodeFrom(b, i, ext))
    && (pending <==> ext && Waiting(seen))
    && (ext ==> !Stray(seen))
  }

  lemma Onward(b: seq<Byte>, i: nat, ext: bool, seen: seq<nat>, pending: bool, n: nat, v: nat)
    requires SoFar(b, i, ext, seen, pending) && SequenceAt(b, i, ext) && RowOf(b[i], ext).n == n &&
             ValueAt(b, i, n) == v
    requires pending ==> v >= 0x80
    ensures SoFar(b, i + n, ext, seen + [v], ext && (High(v) || (pending && !Low(v))))
  {
    hide RowOf, ValueAt, Waiting, Stray;
    Extent(b, i, ext);
    WaitingStep(seen, v);
    StrayStep(seen, v);
    if WellFormed(b, ext) {
      Next(b, i, ext);
      assert seen + ([v] + DecodeFrom(b, i + n, ext)) == seen + [v] + DecodeFrom(b, i + n, ext);
    }
  }

  lemma Rejected(b: seq<Byte>, i: nat, ext: bool, seen: seq<nat>, pending: bool)
    requires SoFar(b, i, ext, seen, pending) && i < |b|
    requires !SequenceAt(b, i, ext) || (pending && b[i] < 0x80)
    ensures !WellFormed(b, ext) || (ext && Stray(Decode(b, ext)))
  {
    hide RowOf, ValueAt, Waiting, Stray, SequenceAt;
    if WellFormed(b, ext) {
      Next(b, i, ext);
      PlainAt(b, i, ext);
      StrayStep(seen, b[i]);
      StrayPrefix(seen + [b[i] as nat], Decode(b, ext));
    }
  }

  lemma Accepted(b: seq<Byte>, ext: bool, seen: seq<nat>, pending: bool)
    requires SoFar(b, |b|, ext, seen, pending)
    ensures WellFormed(b, ext) && (ext ==> !Stray(Decode(b, ext)))
  {
    hide Waiting, Stray;
    assert seen + [] == seen;
  }

  /** Checks a sequence that does not start with a plain character. */
  method CheckSequence(b: seq<Byte>, i: nat, ext: bool) returns (ok: bool, j: nat, ch: nat)
    requires i < |b| && b[i] >= 0x80
    ensures ok <==> SequenceAt(b, i, ext)
    ensures ok ==> j + 1 == i + RowOf(b[i], ext).n && ch == ValueAt(b, i, RowOf(b[i], ext).n) && ch >= 0x80
  {
    var c := b[i];
    ok, j, ch := false, i, 0;
    if c / 64 % 2 == 0 || c == 0xff {
      NoLead(b, i, ext);
      return;
    }
    var fullMask, hiMask;
    ok, j, ch, fullMask, hiMask := Collect(b, i);
    if !ok {
      IncompleteIsBad(b, i, ext);
      return;
    }
    hide Announced, RowOf, SequenceAt;
    TailsBound(b, i, Announced(c) - 1);
    Masked(c, Tails(b, i, Announced(c) - 1));
    GoodExactly(b, i, ext);
    ch := ch % (fullMask + 1);
    if ch < hiMask / 31 || ch < 0x80 {
      return false, j, ch;
    }
    if ch / 0x800 == 0x1b {
      ok := ext;
    } else if ch >= 0x11_0000 {
      ok := ext && ch < 0x1_0000_0000;
    }
  }

  /** Checks a byte string. Without the extension the result is exact; with it, a well-formed string
      is still rejected when a plain character comes while a high surrogate is waiting. */
  method ValidateUtf8(b: seq<Byte>, ext: bool) returns (ret: bool)
    ensures !ext ==> (ret <==> WellFormed(b, false))
    ensures ext ==> (ret <==> WellFormed(b, true) && !Stray(Decode(b, true)))
  {
    hide RowOf, ValueAt, SequenceAt, Waiting, Stray, SoFar;
    if forall k :: 0 <= k < |b| ==> b[k] <= 0x7f {
      PlainDecode(b, ext);
      PlainIsNotStray(b);
      return true;
    }
    var expectLow := 0;
    var i: nat := 0;
    ghost var seen: seq<nat> := [];
    NothingSeen(b, ext);
    while i < |b|
      invariant i <= |b| && (expectLow == 0 || expectLow == 0x400)
      invariant SoFar(b, i, ext, seen, expectLow == 0x400)
    {
      if b[i] < 0x80 {
        if expectLow != 0 {
          Rejected(b, i, ext, seen, true);
          return false;
        }
        PlainAt(b, i, ext);
        Onward(b, i, ext, seen, false, 1, b[i]);
        seen := seen + [b[i] as nat];
        i := i + 1;
      } else {
        var ok, j, ch;
        ok, j, ch := CheckSequence(b, i, ext);
        if !ok {
          Rejected(b, i, ext, seen, expectLow == 0x400);
          return false;
        }
        Onward(b, i, ext, seen, expectLow == 0x400, j + 1 - i, ch);
        Extent(b, i, ext);
        if !ext {
          SequenceIsChar(b, i, ext);
          NeverExpects(b, i, ext, seen, expectLow == 0x400);
        }
        if ch / 0x800 == 0x1b {
          expectLow := if ch / 0x400 % 2 == 0 then 0x400 else 0;
        }
        seen := seen + [ch];
        i := j + 1;
      }
    }
    Accepted(b, ext, seen, expectLow == 0x400);
    ret := true;
  }

  lemma NothingSeen(b: seq<Byte>, ext: bool)
    ensures SoFar(b, 0, ext, [], false)
  {
  }

  lemma NeverExpects(b: seq<Byte>, i: nat, ext: bool, seen: seq<nat>, pending: bool)
    requires SoFar(b, i, ext, seen, pending) && !ext
    ensures !pending
  {
  }
}
