/** UTF-8 as defined by RFC 3629, and its extension to all 32-bit characters. Masks and shifts are
    written as divisions by powers of two. */
module Utf8 {

  type Byte = b: nat | b < 0x100
  type Char = c: nat | c < 0x1_0000_0000

  // ---- Well-formed sequences (section 4 of RFC 3629) ----

  /** How many bytes a sequence with a given first byte has, and which second bytes it allows. */
  datatype Row = Row(n: nat, lo: nat, hi: nat)

  /** Without the extension these are the rows of the grammar of RFC 3629; 0 bytes means that no
      sequence starts like this. */
  function RowOf(b: Byte, ext: bool): (r: Row)
    ensures r.n <= 7
  {
    if b <= 0x7f then Row(1, 0, 0)
    else if b < 0xc2 then Row(0, 0, 0)
    else if b <= 0xdf then Row(2, 0x80, 0xbf)
    else if b == 0xe0 then Row(3, 0xa0, 0xbf)
    else if b == 0xed && !ext then Row(3, 0x80, 0x9f)
    else if b <= 0xef then Row(3, 0x80, 0xbf)
    else if b == 0xf0 then Row(4, 0x90, 0xbf)
    else if b == 0xf4 && !ext then Row(4, 0x80, 0x8f)
    else if b <= 0xf4 then Row(4, 0x80, 0xbf)
    else if !ext then Row(0, 0, 0)
    else if b <= 0xf7 then Row(4, 0x80, 0xbf)
    else if b == 0xf8 then Row(5, 0x88, 0xbf)
    else if b <= 0xfb then Row(5, 0x80, 0xbf)
    else if b == 0xfc then Row(6, 0x84, 0xbf)
    else if b == 0xfd then Row(6, 0x80, 0xbf)
    else if b == 0xfe then Row(7, 0x82, 0x83)
    else Row(0, 0, 0)
  }

  predicate IsCont(b: Byte) {
    0x80 <= b <= 0xbf
  }

  /** A well-formed sequence starts at b[i]. */
  predicate SequenceAt(b: seq<Byte>, i: nat, ext: bool) {
    i < |b| &&
    var r := RowOf(b[i], ext);
    && 0 < r.n && i + r.n <= |b|
    && (r.n > 1 ==> r.lo <= b[i + 1] <= r.hi)
    && (forall k :: i + 2 <= k < i + r.n ==> IsCont(b[k]))
  }

  predicate WellFormedFrom(b: seq<Byte>, i: nat, ext: bool)
    requires i <= |b|
    decreases |b| - i
  {
    i == |b| || (SequenceAt(b, i, ext) && WellFormedFrom(b, i + RowOf(b[i], ext).n, ext))
  }

  predicate WellFormed(b: seq<Byte>, ext: bool) {
    WellFormedFrom(b, 0, ext)
  }

  // ---- Values ----

  /** The payload of k continuation bytes behind b[i]. */
  function Tails(b: seq<Byte>, i: nat, k: nat): nat
    requires i + k < |b|
  {
    if k == 0 then 0 else Tails(b, i, k - 1) * 64 + b[i + k] % 64
  }

  function Pow64(k: nat): (p: nat)
    ensures p > 0
  {
    if k == 0 then 1 else 64 * Pow64(k - 1)
  }

  /** The payload of a first byte with n - 1 continuation bytes. */
  function LeadBits(b: Byte, n: nat): nat {
    match n
    case 1 => b
    case 2 => b % 32
    case 3 => b % 16
    case 4 => b % 8
    case 5 => b % 4
    case 6 => b % 2
    case _ => 0
  }

  function ValueAt(b: seq<Byte>, i: nat, n: nat): nat
    requires 0 < n && i + n <= |b|
  {
    LeadBits(b[i], n) * Pow64(n - 1) + Tails(b, i, n - 1)
  }

  function DecodeFrom(b: seq<Byte>, i: nat, ext: bool): seq<nat>
    requires i <= |b| && WellFormedFrom(b, i, ext)
    decreases |b| - i
  {
    if i == |b| then []
    else
      var n := RowOf(b[i], ext).n;
      [ValueAt(b, i, n)] + DecodeFrom(b, i + n, ext)
  }

  function Decode(b: seq<Byte>, ext: bool): seq<nat>
    requires WellFormed(b, ext)
  {
    DecodeFrom(b, 0, ext)
  }

  // ---- Encoding ----

  predicate IsSurrogate(c: nat) {
    0xd800 <= c <= 0xdfff
  }

  /** Characters that can be encoded: with the extension all of them. */
  predicate Encodable(c: nat, ext: bool) {
    c < 0x1_0000_0000 && (!ext ==> c <= 0x10ffff && !IsSurrogate(c))
  }

  ghost predicate AllEncodable(s: seq<nat>, ext: bool) {
    forall k :: 0 <= k < |s| ==> Encodable(s[k], ext)
  }

  function Cont(c: nat): Byte {
    0x80 + c % 64
  }

  function EncodeChar(c: Char): seq<Byte> {
    if c < 0x80 then [c]
    else if c < 0x800 then [0xc0 + c / 0x40, Cont(c)]
    else if c < 0x1_0000 then [0xe0 + c / 0x1000, Cont(c / 0x40), Cont(c)]
    else if c < 0x20_0000 then [0xf0 + c / 0x4_0000, Cont(c / 0x1000), Cont(c / 0x40), Cont(c)]
    else if c < 0x400_0000 then
      [0xf8 + c / 0x100_0000, Cont(c / 0x4_0000), Cont(c / 0x1000), Cont(c / 0x40), Cont(c)]
    else if c < 0x8000_0000 then
      [0xfc + c / 0x4000_0000, Cont(c / 0x100_0000), Cont(c / 0x4_0000), Cont(c / 0x1000), Cont(c / 0x40), Cont(c)]
    else
      [0xfe, Cont(c / 0x4000_0000), Cont(c / 0x100_0000), Cont(c / 0x4_0000), Cont(c / 0x1000), Cont(c / 0x40), Cont(c)]
  }

  function Encode(s: seq<nat>): seq<Byte>
    requires AllEncodable(s, true)
  {
    if s == [] then [] else EncodeChar(s[0]) + Encode(s[1..])
  }

  // ---- One character ----

  /** b holds the bytes e from place i on. */
  predicate HasAt(b: seq<Byte>, i: nat, e: seq<Byte>) {
    i + |e| <= |b| && forall k :: 0 <= k < |e| ==> b[i + k] == e[k]
  }

  /** Number c in groups of six bits, highest first. */
  lemma Groups(c: nat)
    ensures c == c / 0x40 * 64 + c % 64
    ensures c / 0x40 == c / 0x1000 * 64 + c / 0x40 % 64
    ensures c / 0x1000 == c / 0x4_0000 * 64 + c / 0x1000 % 64
    ensures c / 0x4_0000 == c / 0x100_0000 * 64 + c / 0x4_0000 % 64
    ensures c / 0x100_0000 == c / 0x4000_0000 * 64 + c / 0x100_0000 % 64
    ensures c / 0x4000_0000 == c / 0x10_0000_0000 * 64 + c / 0x4000_0000 % 64
  {
  }

  lemma PowersOf64()
    ensures Pow64(0) == 1 && Pow64(1) == 0x40 && Pow64(2) == 0x1000 && Pow64(3) == 0x4_0000
    ensures Pow64(4) == 0x100_0000 && Pow64(5) == 0x4000_0000 && Pow64(6) == 0x10_0000_0000
  {
    assert Pow64(2) == 64 * Pow64(1);
    assert Pow64(3) == 64 * Pow64(2);
    assert Pow64(4) == 64 * Pow64(3);
    assert Pow64(5) == 64 * Pow64(4);
    assert Pow64(6) == 64 * Pow64(5);
  }

  function Six(b: Byte): nat {
    b % 64
  }

  /** Values of sequences, written out. */
  function Written(b: seq<Byte>, i: nat, n: nat): nat
    requires 0 < n <= 7 && i + n <= |b|
  {
    var l := LeadBits(b[i], n);
    match n
    case 1 => l
    case 2 => l * 0x40 + Six(b[i + 1])
    case 3 => l * 0x1000 + Six(b[i + 1]) * 0x40 + Six(b[i + 2])
    case 4 => l * 0x4_0000 + Six(b[i + 1]) * 0x1000 + Six(b[i + 2]) * 0x40 + Six(b[i + 3])
    case 5 =>
      l * 0x100_0000 + Six(b[i + 1]) * 0x4_0000 + Six(b[i + 2]) * 0x1000 + Six(b[i + 3]) * 0x40 + Six(b[i + 4])
    case 6 =>
      l * 0x4000_0000 + Six(b[i + 1]) * 0x100_0000 + Six(b[i + 2]) * 0x4_0000 + Six(b[i + 3]) * 0x1000
      + Six(b[i + 4]) * 0x40 + Six(b[i + 5])
    case _ =>
      l * 0x10_0000_0000 + Six(b[i + 1]) * 0x4000_0000 + Six(b[i + 2]) * 0x100_0000 + Six(b[i + 3]) * 0x4_0000
      + Six(b[i + 4]) * 0x1000 + Six(b[i + 5]) * 0x40 + Six(b[i + 6])
  }

  lemma ValueIsWritten(b: seq<Byte>, i: nat, n: nat)
    requires 0 < n <= 7 && i + n <= |b|
    ensures ValueAt(b, i, n) == Written(b, i, n)
  {
    PowersOf64();
    hide Pow64, LeadBits;
    if n > 1 {
      assert Tails(b, i, 1) == Six(b[i + 1]);
    }
    if n > 2 {
      assert Tails(b, i, 2) == Tails(b, i, 1) * 64 + Six(b[i + 2]);
    }
    if n > 3 {
      assert Tails(b, i, 3) == Tails(b, i, 2) * 64 + Six(b[i + 3]);
    }
    if n > 4 {
      assert Tails(b, i, 4) == Tails(b, i, 3) * 64 + Six(b[i + 4]);
    }
    if n > 5 {
      assert Tails(b, i, 5) == Tails(b, i, 4) * 64 + Six(b[i + 5]);
    }
    if n > 6 {
      assert Tails(b, i, 6) == Tails(b, i, 5) * 64 + Six(b[i + 6]);
    }
  }

  lemma ContGroup(c: nat)
    ensures IsCont(Cont(c)) && Six(Cont(c)) == c % 64
  {
  }

  /** Bounds of the leading bits of an encoded character. */
  lemma LeadOf(c: Char, ext: bool)
    requires Encodable(c, ext)
    ensures var e := EncodeChar(c); var r := RowOf(e[0], ext);
      && |e| == r.n <= 7
      && LeadBits(e[0], r.n) == (match r.n case 1 => c case 2 => c / 0x40 case 3 => c / 0x1000 case 4 => c / 0x4_0000
                                 case 5 => c / 0x100_0000 case 6 => c / 0x4000_0000 case _ => c / 0x10_0000_0000)
  {
    hide Cont;
  }

  /** The second byte stays within its row. */
  lemma SecondOf(c: Char, ext: bool)
    requires Encodable(c, ext)
    ensures var e := EncodeChar(c); var r := RowOf(e[0], ext);
      |e| > 1 ==> r.lo <= e[1] <= r.hi
  {
    Groups(c);
  }

  lemma OthersOf(c: Char)
    ensures forall k :: 0 < k < |EncodeChar(c)| ==> IsCont(EncodeChar(c)[k])
  {
    ContGroup(c);
    ContGroup(c / 0x40);
    ContGroup(c / 0x1000);
    ContGroup(c / 0x4_0000);
    ContGroup(c / 0x100_0000);
    ContGroup(c / 0x4000_0000);
    hide Cont;
  }

  /** An encoded character is a well-formed sequence with its value. */
  lemma CharIsSequence(c: Char, ext: bool, b: seq<Byte>, i: nat)
    requires Encodable(c, ext) && HasAt(b, i, EncodeChar(c))
    ensures SequenceAt(b, i, ext) && RowOf(b[i], ext).n == |EncodeChar(c)|
    ensures ValueAt(b, i, |EncodeChar(c)|) == c
  {
    var e := EncodeChar(c);
    LeadOf(c, ext);
    SecondOf(c, ext);
    OthersOf(c);
    hide RowOf, EncodeChar, Tails, Pow64;
    assert b[i + 0] == e[0];
    forall k | i + 2 <= k < i + |e| ensures IsCont(b[k]) {
      assert b[i + (k - i)] == e[k - i];
    }
    ValueIsWritten(b, i, |e|);
    WrittenIs(c, b, i);
  }

  lemma WrittenIs(c: Char, b: seq<Byte>, i: nat)
    requires HasAt(b, i, EncodeChar(c)) && 0 < |EncodeChar(c)| <= 7
    requires var n := |EncodeChar(c)|;
      LeadBits(b[i], n) == (match n case 1 => c case 2 => c / 0x40 case 3 => c / 0x1000 case 4 => c / 0x4_0000
                            case 5 => c / 0x100_0000 case 6 => c / 0x4000_0000 case _ => c / 0x10_0000_0000)
    ensures Written(b, i, |EncodeChar(c)|) == c
  {
    var e := EncodeChar(c);
    Groups(c);
    ContGroup(c);
    ContGroup(c / 0x40);
    ContGroup(c / 0x1000);
    ContGroup(c / 0x4_0000);
    ContGroup(c / 0x100_0000);
    ContGroup(c / 0x4000_0000);
    hide Cont, LeadBits, Six;
    assert |e| > 1 ==> b[i + 1] == e[1];
    assert |e| > 2 ==> b[i + 2] == e[2];
    assert |e| > 3 ==> b[i + 3] == e[3];
    assert |e| > 4 ==> b[i + 4] == e[4];
    assert |e| > 5 ==> b[i + 5] == e[5];
    assert |e| > 6 ==> b[i + 6] == e[6];
  }

  /** The groups of a number put together from groups. */
  lemma Regroup(q: nat, r: nat)
    requires r < 64
    ensures (q * 64 + r) / 64 == q && (q * 64 + r) % 64 == r
  {
  }

  /** Dividing step by step. */
  lemma Stepwise(v: nat)
    ensures v / 0x40 / 64 == v / 0x1000 && v / 0x1000 / 64 == v / 0x4_0000 && v / 0x4_0000 / 64 == v / 0x100_0000
    ensures v / 0x100_0000 / 64 == v / 0x4000_0000 && v / 0x4000_0000 / 64 == v / 0x10_0000_0000
  {
  }

  lemma ContOf(b: Byte, c: nat)
    requires IsCont(b) && c % 64 == Six(b)
    ensures Cont(c) == b
  {
  }

  /** The first j bytes of a sequence of n put together. */
  function Prefix(b: seq<Byte>, i: nat, n: nat, j: nat): nat
    requires 0 < j <= n && i + n <= |b|
  {
    if j == 1 then LeadBits(b[i], n) else Prefix(b, i, n, j - 1) * 64 + Six(b[i + j - 1])
  }

  lemma PrefixStep(b: seq<Byte>, i: nat, n: nat, j: nat)
    requires 1 < j <= n && i + n <= |b|
    ensures Prefix(b, i, n, j) / 64 == Prefix(b, i, n, j - 1) && Prefix(b, i, n, j) % 64 == Six(b[i + j - 1])
  {
    Regroup(Prefix(b, i, n, j - 1), Six(b[i + j - 1]));
  }

  lemma {:induction false} PrefixIsValue(b: seq<Byte>, i: nat, n: nat, j: nat)
    requires 0 < j <= n && i + n <= |b|
    ensures Prefix(b, i, n, j) == LeadBits(b[i], n) * Pow64(j - 1) + Tails(b, i, j - 1)
  {
    if j > 1 {
      PrefixIsValue(b, i, n, j - 1);
      assert Pow64(j - 1) == 64 * Pow64(j - 2);
      assert LeadBits(b[i], n) * Pow64(j - 1) == LeadBits(b[i], n) * Pow64(j - 2) * 64;
    } else {
      PowersOf64();
    }
  }

  /** Dividing a value by 64 some times leaves a shorter prefix. */
  lemma ValueGroups(b: seq<Byte>, i: nat, n: nat, v: nat)
    requires 0 < n <= 7 && i + n <= |b| && v == ValueAt(b, i, n)
    ensures v == Prefix(b, i, n, n)
    ensures n > 1 ==> v % 64 == Six(b[i + n - 1]) && v / 0x40 == Prefix(b, i, n, n - 1)
    ensures n > 2 ==> v / 0x40 % 64 == Six(b[i + n - 2]) && v / 0x1000 == Prefix(b, i, n, n - 2)
    ensures n > 3 ==> v / 0x1000 % 64 == Six(b[i + n - 3]) && v / 0x4_0000 == Prefix(b, i, n, n - 3)
    ensures n > 4 ==> v / 0x4_0000 % 64 == Six(b[i + n - 4]) && v / 0x100_0000 == Prefix(b, i, n, n - 4)
    ensures n > 5 ==> v / 0x100_0000 % 64 == Six(b[i + n - 5]) && v / 0x4000_0000 == Prefix(b, i, n, n - 5)
    ensures n > 6 ==> v / 0x4000_0000 % 64 == Six(b[i + n - 6]) && v / 0x10_0000_0000 == Prefix(b, i, n, n - 6)
  {
    PrefixIsValue(b, i, n, n);
    Stepwise(v);
    hide Prefix, Six, Tails, Pow64, LeadBits;
    if n > 1 { PrefixStep(b, i, n, n); }
    if n > 2 { PrefixStep(b, i, n, n - 1); }
    if n > 3 { PrefixStep(b, i, n, n - 2); }
    if n > 4 { PrefixStep(b, i, n, n - 3); }
    if n > 5 { PrefixStep(b, i, n, n - 4); }
    if n > 6 { PrefixStep(b, i, n, n - 5); }
  }

  /** v without its last n - 2 groups. */
  function Front(v: nat, n: nat): nat {
    match n
    case 2 => v
    case 3 => v / 0x40
    case 4 => v / 0x1000
    case 5 => v / 0x4_0000
    case 6 => v / 0x100_0000
    case _ => v / 0x4000_0000
  }

  /** The number of bytes that encode a value. */
  function Size(v: nat): (n: nat)
    ensures 0 < n <= 7
  {
    if v < 0x80 then 1 else if v < 0x800 then 2 else if v < 0x1_0000 then 3 else if v < 0x20_0000 then 4
    else if v < 0x400_0000 then 5 else if v < 0x8000_0000 then 6 else 7
  }

  /** v without its last n - 1 groups. */
  function Head(v: nat, n: nat): nat {
    match n
    case 1 => v
    case 2 => v / 0x40
    case 3 => v / 0x1000
    case 4 => v / 0x4_0000
    case 5 => v / 0x100_0000
    case 6 => v / 0x4000_0000
    case _ => v / 0x10_0000_0000
  }

  /** The first two bytes decide how many bytes encode the value. */
  lemma SequenceRange(l: Byte, m: Byte, ext: bool, v: nat)
    requires var r := RowOf(l, ext); r.n > 1 && r.lo <= m <= r.hi && Front(v, r.n) == LeadBits(l, r.n) * 64 + Six(m)
    ensures Encodable(v, ext) && Size(v) == RowOf(l, ext).n
  {
    var n := RowOf(l, ext).n;
    if n == 2 {
    } else if n == 3 {
    } else if n == 4 {
    } else if n == 5 {
    } else if n == 6 {
    } else {
    }
  }

  lemma LeadFits(l: Byte, ext: bool, v: Char)
    requires Size(v) == RowOf(l, ext).n && Head(v, Size(v)) == LeadBits(l, Size(v))
    ensures |EncodeChar(v)| == Size(v) && EncodeChar(v)[0] == l
  {
    hide Cont;
  }

  /** A well-formed sequence is the encoding of its value. */
  lemma SequenceIsChar(b: seq<Byte>, i: nat, ext: bool)
    requires SequenceAt(b, i, ext)
    ensures var n := RowOf(b[i], ext).n; var v := ValueAt(b, i, n);
      Encodable(v, ext) && |EncodeChar(v)| == n && HasAt(b, i, EncodeChar(v))
  {
    var n := RowOf(b[i], ext).n;
    var v := ValueAt(b, i, n);
    if n > 1 {
      hide ValueAt, Tails, Pow64, LeadBits, EncodeChar, Six, IsCont, Encodable;
      ValueGroups(b, i, n, v);
      HeadAndFront(b, i, n, v);
      SequenceRange(b[i], b[i + 1], ext, v);
      LeadFits(b[i], ext, v);
      ContBytes(b, i, ext);
      SequenceBytes(b, i, n, v);
    } else {
      PowersOf64();
    }
  }

  lemma HeadAndFront(b: seq<Byte>, i: nat, n: nat, v: nat)
    requires 1 < n <= 7 && i + n <= |b| && v == ValueAt(b, i, n)
    ensures Head(v, n) == LeadBits(b[i], n) && Front(v, n) == LeadBits(b[i], n) * 64 + Six(b[i + 1])
  {
    ValueGroups(b, i, n, v);
    hide ValueAt, LeadBits, Six;
    assert Prefix(b, i, n, 2) == LeadBits(b[i], n) * 64 + Six(b[i + 1]);
    assert Prefix(b, i, n, 1) == LeadBits(b[i], n);
  }

  lemma ContBytes(b: seq<Byte>, i: nat, ext: bool)
    requires SequenceAt(b, i, ext)
    ensures forall k :: i < k < i + RowOf(b[i], ext).n ==> IsCont(b[k])
  {
    var r := RowOf(b[i], ext);
    if r.n > 1 {
      LowByte(b[i + 1], r);
    }
  }

  lemma LowByte(m: Byte, r: Row)
    requires r.lo <= m <= r.hi && 0x80 <= r.lo && r.hi <= 0xbf
    ensures IsCont(m)
  {
  }

  lemma SequenceBytes(b: seq<Byte>, i: nat, n: nat, v: Char)
    requires 1 < n <= 7 && i + n <= |b| && |EncodeChar(v)| == n && EncodeChar(v)[0] == b[i]
    requires forall k :: i < k < i + n ==> IsCont(b[k])
    requires n > 1 ==> v % 64 == Six(b[i + n - 1])
    requires n > 2 ==> v / 0x40 % 64 == Six(b[i + n - 2])
    requires n > 3 ==> v / 0x1000 % 64 == Six(b[i + n - 3])
    requires n > 4 ==> v / 0x4_0000 % 64 == Six(b[i + n - 4])
    requires n > 5 ==> v / 0x100_0000 % 64 == Six(b[i + n - 5])
    requires n > 6 ==> v / 0x4000_0000 % 64 == Six(b[i + n - 6])
    ensures HasAt(b, i, EncodeChar(v))
  {
    if n > 1 { ContOf(b[i + n - 1], v); }
    if n > 2 { ContOf(b[i + n - 2], v / 0x40); }
    if n > 3 { ContOf(b[i + n - 3], v / 0x1000); }
    if n > 4 { ContOf(b[i + n - 4], v / 0x4_0000); }
    if n > 5 { ContOf(b[i + n - 5], v / 0x100_0000); }
    if n > 6 { ContOf(b[i + n - 6], v / 0x4000_0000); }
    hide Cont, Six, IsCont;
  }

  // ---- Strings ----

  lemma EncodableMore(s: seq<nat>, ext: bool)
    requires AllEncodable(s, ext)
    ensures AllEncodable(s, true)
  {
  }

  lemma {:induction false} EncodeDecodes(s: seq<nat>, ext: bool, b: seq<Byte>, i: nat)
    requires AllEncodable(s, ext) && AllEncodable(s, true)
    requires HasAt(b, i, Encode(s)) && i + |Encode(s)| == |b|
    ensures WellFormedFrom(b, i, ext) && DecodeFrom(b, i, ext) == s
    decreases |s|
  {
    hide RowOf, ValueAt, EncodeChar;
    if s == [] {
    } else {
      var e := EncodeChar(s[0]);
      var rest := Encode(s[1..]);
      assert Encode(s) == e + rest;
      forall k | 0 <= k < |e| ensures b[i + k] == e[k] {
        assert Encode(s)[k] == e[k];
      }
      forall k | 0 <= k < |rest| ensures b[i + |e| + k] == rest[k] {
        assert Encode(s)[|e| + k] == rest[k];
        assert b[i + (|e| + k)] == Encode(s)[|e| + k];
      }
      CharIsSequence(s[0], ext, b, i);
      EncodeDecodes(s[1..], ext, b, i + |e|);
      assert s == [s[0]] + s[1..];
    }
  }

  /** Every legal string survives encoding and decoding, and its encoding is well-formed. */
  lemma RoundTrip(s: seq<nat>, ext: bool)
    requires AllEncodable(s, ext) && AllEncodable(s, true)
    ensures WellFormed(Encode(s), ext) && Decode(Encode(s), ext) == s
  {
    EncodeDecodes(s, ext, Encode(s), 0);
  }

  lemma {:induction false} DecodeEncodes(b: seq<Byte>, i: nat, ext: bool)
    requires i <= |b| && WellFormedFrom(b, i, ext)
    ensures AllEncodable(DecodeFrom(b, i, ext), ext) && AllEncodable(DecodeFrom(b, i, ext), true)
    ensures Encode(DecodeFrom(b, i, ext)) == b[i..]
    decreases |b| - i
  {
    hide RowOf, ValueAt, EncodeChar;
    if i < |b| {
      var n := RowOf(b[i], ext).n;
      SequenceIsChar(b, i, ext);
      DecodeEncodes(b, i + n, ext);
      var v := ValueAt(b, i, n);
      var rest := DecodeFrom(b, i + n, ext);
      var s := DecodeFrom(b, i, ext);
      assert s == [v] + rest && s[1..] == rest;
      forall k | 0 <= k < |s| ensures Encodable(s[k], ext) {
        assert k > 0 ==> s[k] == rest[k - 1];
      }
      assert b[i..] == EncodeChar(v) + b[i + n..] by {
        assert forall k :: 0 <= k < n ==> b[i..][k] == b[i + k] == EncodeChar(v)[k];
        assert b[i..][..n] == EncodeChar(v);
      }
    }
  }

  /** Every well-formed byte string is the encoding of what it decodes to. */
  lemma InverseRoundTrip(b: seq<Byte>, ext: bool)
    requires WellFormed(b, ext)
    ensures AllEncodable(Decode(b, ext), ext) && AllEncodable(Decode(b, ext), true)
    ensures Encode(Decode(b, ext)) == b
  {
    DecodeEncodes(b, 0, ext);
    assert b[0..] == b;
  }

  /** The well-formed byte strings are exactly the encodings of legal strings. */
  lemma WellFormedExactly(b: seq<Byte>, ext: bool)
    ensures WellFormed(b, ext) <==> exists s: seq<nat> ::
              AllEncodable(s, ext) && AllEncodable(s, true) && Encode(s) == b
  {
    if WellFormed(b, ext) {
      InverseRoundTrip(b, ext);
    } else {
      forall s: seq<nat> | AllEncodable(s, ext) && AllEncodable(s, true) ensures Encode(s) != b {
        RoundTrip(s, ext);
      }
    }
  }

  // ---- Examples ----

  ghost predicate Encodes(s: seq<nat>, b: seq<Byte>) {
    AllEncodable(s, true) && Encode(s) == b
  }

  lemma EncodesOne(c: nat, s: seq<nat>, e: seq<Byte>, b: seq<Byte>)
    requires s != [] && s[0] == c < 0x1_0000_0000 && EncodeChar(c) == e && Encodes(s[1..], b)
    ensures Encodes(s, e + b)
  {
  }

  /** The strings of section 7 of RFC 3629. */
  lemma RfcExamples()
    ensures Encodes([0x41, 0x2262, 0x391, 0x2e], [0x41, 0xe2, 0x89, 0xa2, 0xce, 0x91, 0x2e])
    ensures Encodes([0xd55c, 0xad6d, 0xc5b4], [0xed, 0x95, 0x9c, 0xea, 0xb5, 0xad, 0xec, 0x96, 0xb4])
    ensures Encodes([0x65e5, 0x672c, 0x8a9e], [0xe6, 0x97, 0xa5, 0xe6, 0x9c, 0xac, 0xe8, 0xaa, 0x9e])
    ensures Encodes([0xfeff, 0x233b4], [0xef, 0xbb, 0xbf, 0xf0, 0xa3, 0x8e, 0xb4])
  {
    hide Encodes;
    Symbols();
    ThreeThrees(0xd55c, 0xad6d, 0xc5b4, [0xed, 0x95, 0x9c], [0xea, 0xb5, 0xad], [0xec, 0x96, 0xb4]);
    ThreeThrees(0x65e5, 0x672c, 0x8a9e, [0xe6, 0x97, 0xa5], [0xe6, 0x9c, 0xac], [0xe8, 0xaa, 0x9e]);
    MarkAndFour();
    hide EncodeChar;
    assert [0xed, 0x95, 0x9c] + [0xea, 0xb5, 0xad] + [0xec, 0x96, 0xb4] ==
           [0xed, 0x95, 0x9c, 0xea, 0xb5, 0xad, 0xec, 0x96, 0xb4];
    assert [0xe6, 0x97, 0xa5] + [0xe6, 0x9c, 0xac] + [0xe8, 0xaa, 0x9e] ==
           [0xe6, 0x97, 0xa5, 0xe6, 0x9c, 0xac, 0xe8, 0xaa, 0x9e];
  }

  lemma Symbols()
    ensures Encodes([0x41, 0x2262, 0x391, 0x2e], [0x41, 0xe2, 0x89, 0xa2, 0xce, 0x91, 0x2e])
  {
    var s: seq<nat> := [0x41, 0x2262, 0x391, 0x2e];
    assert EncodeChar(0x2262) == [0xe2, 0x89, 0xa2] && EncodeChar(0x391) == [0xce, 0x91];
    assert EncodeChar(0x41) == [0x41] && EncodeChar(0x2e) == [0x2e];
    hide EncodeChar;
    assert s[1..] == [0x2262, 0x391, 0x2e] && s[1..][1..] == [0x391, 0x2e] && s[1..][1..][1..] == [0x2e];
    assert [0x2e][1..] == [];
    EncodesOne(0x2e, [0x2e], [0x2e], []);
    EncodesOne(0x391, [0x391, 0x2e], [0xce, 0x91], [0x2e] + []);
    EncodesOne(0x2262, [0x2262, 0x391, 0x2e], [0xe2, 0x89, 0xa2], [0xce, 0x91] + ([0x2e] + []));
  }

  lemma ThreeThrees(c: Char, d: Char, e: Char, x: seq<Byte>, y: seq<Byte>, z: seq<Byte>)
    requires EncodeChar(c) == x && EncodeChar(d) == y && EncodeChar(e) == z
    ensures Encodes([c, d, e], x + y + z)
  {
    hide EncodeChar;
    assert [c, d, e][1..] == [d, e] && [d, e][1..] == [e] && [e][1..] == [];
    EncodesOne(e, [e], z, []);
    EncodesOne(d, [d, e], y, z + []);
    EncodesOne(c, [c, d, e], x, y + (z + []));
    assert x + (y + (z + [])) == x + y + z;
  }

  lemma MarkAndFour()
    ensures Encodes([0xfeff, 0x233b4], [0xef, 0xbb, 0xbf, 0xf0, 0xa3, 0x8e, 0xb4])
  {
    assert EncodeChar(0xfeff) == [0xef, 0xbb, 0xbf] && EncodeChar(0x233b4) == [0xf0, 0xa3, 0x8e, 0xb4];
    hide EncodeChar;
    assert [0xfeff, 0x233b4][1..] == [0x233b4] && [0x233b4][1..] == [];
    EncodesOne(0x233b4, [0x233b4], [0xf0, 0xa3, 0x8e, 0xb4], []);
  }

  /** The longer sequences of the extension. */
  lemma LongSequences()
    ensures EncodeChar(0x20_0000) == [0xf8, 0x88, 0x80, 0x80, 0x80]
    ensures EncodeChar(0x7fff_ffff) == [0xfd, 0xbf, 0xbf, 0xbf, 0xbf, 0xbf]
    ensures EncodeChar(0xffff_ffff) == [0xfe, 0x83, 0xbf, 0xbf, 0xbf, 0xbf, 0xbf]
  {
  }

  /** Overlong forms, surrogates, values beyond 0x10ffff, stray and missing continuation bytes. */
  lemma NotWellFormed(ext: bool)
    ensures !WellFormed([0xc0, 0x80], ext) && !WellFormed([0xe0, 0x9f, 0xbf], ext)
    ensures !WellFormed([0x80], ext) && !WellFormed([0xe2, 0x89], ext) && !WellFormed([0xce, 0x41], ext)
    ensures !WellFormed([0xed, 0xa0, 0x80], false) && !WellFormed([0xf4, 0x90, 0x80, 0x80], false)
  {
  }
}
