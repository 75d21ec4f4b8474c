/** The encoder and the decoder for UTF-8. */
module Utf8Codec {
  import opened Utf8

  // ---- Encoder ----

  lemma {:induction false} EncodeSplit(s: seq<nat>, i: nat)
    requires AllEncodable(s, true) && i < |s|
    ensures Encode(s[..i + 1]) == Encode(s[..i]) + EncodeChar(s[i])
  {
    hide EncodeChar;
    if i == 0 {
      assert s[..1] == [s[0]] && s[..1][1..] == [];
    } else {
      EncodeSplit(s[1..], i - 1);
      assert s[..i + 1][1..] == s[1..][..i] && s[..i][1..] == s[1..][..i - 1];
    }
  }

  lemma {:induction false} EncodeGrows(s: seq<nat>, i: nat)
    requires AllEncodable(s, true) && i <= |s|
    ensures Encode(s[..i]) <= Encode(s)
    decreases |s| - i
  {
    hide EncodeChar;
    if i == |s| {
      assert s[..i] == s;
    } else {
      EncodeSplit(s, i);
      EncodeGrows(s, i + 1);
    }
  }

  lemma {:induction false} PlainEncode(s: seq<nat>)
    requires forall k :: 0 <= k < |s| ==> s[k] < 0x80
    ensures AllEncodable(s, false) && AllEncodable(s, true) && Encode(s) == s
  {
    if s != [] {
      PlainEncode(s[1..]);
      assert s == [s[0]] + s[1..];
    }
  }

  /** First pass: the length of the result, or failure at the first character that cannot be encoded. */
  method MeasureString(s: seq<Char>, ext: bool) returns (ok: bool, len: nat)
    ensures ok <==> AllEncodable(s, ext)
    ensures AllEncodable(s, true) && (ok ==> len == |Encode(s)|)
  {
    hide EncodeChar, Encode;
    ok, len := true, |s|;
    var i := 0;
    assert s[..0] == [];
    PlainEncode([]);
    while i < |s|
      invariant 0 <= i <= |s| && len == |Encode(s[..i])| + |s| - i
      invariant AllEncodable(s[..i], ext)
    {
      var c := s[i];
      EncodeSplit(s, i);
      EncodedSize(c);
      assert s[..i + 1] == s[..i] + [c];
      if c >= 0x80 {
        len := len + 1;
        if c >= 0x800 {
          len := len + 1;
          if c >= 0x1_0000 {
            len := len + 1;
            if !ext && c > 0x10ffff {
              return false, 0;
            }
            if c >= 0x20_0000 {
              len := len + 1;
              if c >= 0x400_0000 {
                len := len + 1;
                if c >= 0x8000_0000 {
                  len := len + 1;
                }
              }
            }
          } else if !ext && 0xd800 <= c <= 0xdfff {
            return false, 0;
          }
        }
      }
      i := i + 1;
    }
    assert s[..i] == s;
  }

  lemma EncodedSize(c: Char)
    ensures |EncodeChar(c)| == Size(c)
  {
    hide Cont;
  }

  /** Writes the bytes of one character. */
  method WriteChar(out: array<Byte>, dst: nat, c: Char) returns (dst': nat)
    requires dst + |EncodeChar(c)| <= out.Length
    modifies out
    ensures dst' == dst + |EncodeChar(c)|
    ensures out[dst..dst'] == EncodeChar(c)
    ensures forall k :: 0 <= k < dst ==> out[k] == old(out[k])
  {
    hide Cont;
    if c < 0x80 {
      out[dst] := c;
      dst' := dst + 1;
    } else if c < 0x800 {
      out[dst], out[dst + 1] := 0xc0 + c / 0x40, Cont(c);
      dst' := dst + 2;
    } else if c < 0x1_0000 {
      out[dst], out[dst + 1], out[dst + 2] := 0xe0 + c / 0x1000, Cont(c / 0x40), Cont(c);
      dst' := dst + 3;
    } else {
      dst' := WriteLong(out, dst, c);
    }
  }

  method WriteLong(out: array<Byte>, dst: nat, c: Char) returns (dst': nat)
    requires dst + |EncodeChar(c)| <= out.Length && c >= 0x1_0000
    modifies out
    ensures dst' == dst + |EncodeChar(c)|
    ensures out[dst..dst'] == EncodeChar(c)
    ensures forall k :: 0 <= k < dst ==> out[k] == old(out[k])
  {
    hide Cont;
    if c < 0x20_0000 {
      out[dst], out[dst + 1], out[dst + 2], out[dst + 3] :=
        0xf0 + c / 0x4_0000, Cont(c / 0x1000), Cont(c / 0x40), Cont(c);
      dst' := dst + 4;
    } else if c < 0x400_0000 {
      out[dst], out[dst + 1], out[dst + 2], out[dst + 3], out[dst + 4] :=
        0xf8 + c / 0x100_0000, Cont(c / 0x4_0000), Cont(c / 0x1000), Cont(c / 0x40), Cont(c);
      dst' := dst + 5;
    } else {
      dst' := WriteLongest(out, dst, c);
    }
  }

  method WriteLongest(out: array<Byte>, dst: nat, c: Char) returns (dst': nat)
    requires dst + |EncodeChar(c)| <= out.Length && c >= 0x400_0000
    modifies out
    ensures dst' == dst + |EncodeChar(c)|
    ensures out[dst..dst'] == EncodeChar(c)
    ensures forall k :: 0 <= k < dst ==> out[k] == old(out[k])
  {
    hide Cont;
    if c < 0x8000_0000 {
      out[dst], out[dst + 1], out[dst + 2] := 0xfc + c / 0x4000_0000, Cont(c / 0x100_0000), Cont(c / 0x4_0000);
      out[dst + 3], out[dst + 4], out[dst + 5] := Cont(c / 0x1000), Cont(c / 0x40), Cont(c);
      dst' := dst + 6;
    } else {
      out[dst], out[dst + 1], out[dst + 2], out[dst + 3] :=
        0xfe, Cont(c / 0x4000_0000), Cont(c / 0x100_0000), Cont(c / 0x4_0000);
      out[dst + 4], out[dst + 5], out[dst + 6] := Cont(c / 0x1000), Cont(c / 0x40), Cont(c);
      dst' := dst + 7;
    }
  }

  /** Encodes a string; fails exactly when a character is outside the allowed range. The measured
      length is the number of bytes written. */
  method StringToUtf8(s: seq<Char>, ext: bool) returns (ok: bool, r: seq<Byte>)
    ensures ok <==> AllEncodable(s, ext)
    ensures ok ==> AllEncodable(s, true) && r == Encode(s)
  {
    hide EncodeChar, Encode;
    if forall k :: 0 <= k < |s| ==> s[k] <= 0x7f {
      PlainEncode(s);
      return true, s;
    }
    var len;
    ok, len := MeasureString(s, ext);
    if !ok {
      return false, [];
    }
    if len == |s| {
      OneByteEach(s);
      return true, s;
    }
    var out := new Byte[len](_ => 0);
    var i, dst := 0, 0;
    assert s[..0] == [];
    PlainEncode([]);
    while i < |s|
      invariant 0 <= i <= |s| && dst == |Encode(s[..i])| <= len
      invariant out[..dst] == Encode(s[..i])
    {
      EncodeSplit(s, i);
      EncodeGrows(s, i + 1);
      var next := WriteChar(out, dst, s[i]);
      assert out[..next] == out[..dst] + out[dst..next];
      dst := next;
      i := i + 1;
    }
    assert s[..i] == s && out[..dst] == out[..];
    r := out[..];
  }

  lemma {:induction false} AtLeastOneEach(s: seq<nat>)
    requires AllEncodable(s, true)
    ensures |Encode(s)| >= |s|
    ensures |Encode(s)| == |s| ==> forall k :: 0 <= k < |s| ==> s[k] < 0x80
  {
    if s != [] {
      EncodedSize(s[0]);
      AtLeastOneEach(s[1..]);
    }
  }

  lemma OneByteEach(s: seq<nat>)
    requires AllEncodable(s, true) && |Encode(s)| == |s|
    ensures Encode(s) == s
  {
    AtLeastOneEach(s);
    PlainEncode(s);
  }

  // ---- Decoder ----

  /** Reads one continuation byte behind place i. */
  method GetContChar(b: seq<Byte>, i: nat) returns (ok: bool, j: nat, c: Byte)
    ensures j == i + 1 && (ok <==> j < |b| && IsCont(b[j])) && (ok ==> c == b[j])
  {
    j, ok, c := i + 1, false, 0;
    if j < |b| {
      c := b[j];
      ok := c / 64 == 2;
    }
  }

  /** Looks at the first bytes of a sequence that does not start with a plain character: how many
      continuation bytes are left to read behind place j, and how wide the character may be. */
  method ScanLead(b: seq<Byte>, i: nat, ext: bool) returns (ok: bool, j: nat, cont: nat, width: nat)
    requires i < |b| && b[i] >= 0x80
    ensures ok ==> i <= j < |b| && width <= 2 && RowOf(b[i], ext).n == j - i + cont + 1 && j <= i + 1
    ensures ok ==> RowOf(b[i], ext).n > 1
                   && (if j == i then RowOf(b[i], ext).lo == 0x80 && RowOf(b[i], ext).hi == 0xbf
                       else RowOf(b[i], ext).lo <= b[j] <= RowOf(b[i], ext).hi)
    ensures ok ==> width == if RowOf(b[i], ext).n > 3 then 2 else if b[i] > 0xc3 then 1 else 0
    ensures !ok ==> !SequenceAt(b, i, ext)
  {
    var c := b[i];
    ok, j, cont, width := true, i, 0, 0;
    if c / 64 == 2 {
      return false, i, 0, 0;
    }
    if c / 32 == 6 {
      if c / 2 % 16 == 0 {
        return false, i, 0, 0;
      }
      cont := 1;
      if c / 4 % 8 != 0 {
        width := 1;
      }
    } else if c / 16 == 14 {
      width := 1;
      if c == 0xe0 {
        ok, j, c := GetContChar(b, i);
        ok := ok && c / 32 % 2 != 0;
        cont := 1;
      } else if !ext && c == 0xed {
        ok, j, c := GetContChar(b, i);
        ok := ok && c / 32 % 2 == 0;
        cont := 1;
      } else {
        cont := 2;
      }
    } else {
      width := 2;
      if c / 8 == 30 {
        if c == 0xf0 {
          ok, j, c := GetContChar(b, i);
          ok := ok && c / 16 % 4 != 0;
          cont := 2;
        } else if !ext {
          if c > 0xf4 {
            ok := false;
          } else if c == 0xf4 {
            ok, j, c := GetContChar(b, i);
            ok := ok && c <= 0x8f;
            cont := 2;
          } else {
            cont := 3;
          }
        } else {
          cont := 3;
        }
      } else if c == 0xff || !ext {
        ok := false;
      } else {
        ok, j, cont := ScanLong(b, i);
      }
    }
  }

  /** The part for first bytes that only the extension allows. */
  method ScanLong(b: seq<Byte>, i: nat) returns (ok: bool, j: nat, cont: nat)
    requires i < |b| && 0xf8 <= b[i] < 0xff
    ensures ok ==> i <= j < |b| && RowOf(b[i], true).n == j - i + cont + 1 && j <= i + 1
    ensures ok ==> if j == i then RowOf(b[i], true).lo == 0x80 && RowOf(b[i], true).hi == 0xbf
                   else RowOf(b[i], true).lo <= b[j] <= RowOf(b[i], true).hi
    ensures !ok ==> !SequenceAt(b, i, true)
  {
    var c := b[i];
    ok, j, cont := true, i, 0;
    if c / 4 == 62 {
      if c == 0xf8 {
        ok, j, c := GetContChar(b, i);
        ok := ok && c / 8 % 8 != 0;
        cont := 3;
      } else {
        cont := 4;
      }
    } else if c / 2 == 126 {
      if c == 0xfc {
        ok, j, c := GetContChar(b, i);
        ok := ok && c / 4 % 16 != 0;
        cont := 4;
      } else {
        cont := 5;
      }
    } else {
      ok, j, c := GetContChar(b, i);
      ok := ok && c / 2 % 32 != 0 && c / 4 % 16 == 0;
      cont := 5;
    }
  }

  /** Checks one sequence; j is its last byte. */
  method ScanChar(b: seq<Byte>, i: nat, ext: bool) returns (ok: bool, j: nat, width: nat)
    requires i < |b|
    ensures ok <==> SequenceAt(b, i, ext)
    ensures ok ==> j + 1 == i + RowOf(b[i], ext).n && width <= 2
    ensures ok ==> width == if RowOf(b[i], ext).n > 3 then 2 else if b[i] > 0xc3 then 1 else 0
  {
    ok, j, width := true, i, 0;
    if b[i] >= 0x80 {
      var cont, c;
      ok, j, cont, width := ScanLead(b, i, ext);
      ghost var first, started := j, ok;
      while ok && cont > 0
        invariant ok ==> started && i <= first <= j < |b| && RowOf(b[i], ext).n == j - i + cont + 1
        invariant ok ==> forall k :: first < k <= j ==> IsCont(b[k])
        invariant !ok ==> !SequenceAt(b, i, ext)
        decreases cont
      {
        ok, j, c := GetContChar(b, j);
        cont := cont - 1;
      }
      if ok {
        assert b[i + 1] == if first == i then b[first + 1] else b[first];
      }
    }
  }

  /** Characters below this fit into a string of the given width. */
  function Limit(width: nat): nat {
    if width == 0 then 0x100 else if width == 1 then 0x1_0000 else 0x1_0000_0000
  }

  lemma WidthOf(b: seq<Byte>, i: nat, ext: bool, width: nat)
    requires SequenceAt(b, i, ext)
    requires width == if RowOf(b[i], ext).n > 3 then 2 else if b[i] > 0xc3 then 1 else 0
    ensures var v := ValueAt(b, i, RowOf(b[i], ext).n); v < Limit(width) && (width > 0 ==> v >= Limit(width - 1))
  {
    var n := RowOf(b[i], ext).n;
    SequenceIsChar(b, i, ext);
    EncodedSize(ValueAt(b, i, n));
    hide SequenceAt, EncodeChar;
    if n < 3 {
      ValueIsWritten(b, i, n);
      hide ValueAt;
    }
  }

  lemma Extent(b: seq<Byte>, i: nat, ext: bool)
    requires SequenceAt(b, i, ext)
    ensures 0 < RowOf(b[i], ext).n && i + RowOf(b[i], ext).n <= |b|
  {
  }

  lemma Next(b: seq<Byte>, i: nat, ext: bool)
    requires i < |b| && WellFormedFrom(b, i, ext)
    ensures SequenceAt(b, i, ext)
    ensures var n := RowOf(b[i], ext).n;
      && 0 < n && i + n <= |b| && WellFormedFrom(b, i + n, ext)
      && DecodeFrom(b, i, ext) == [ValueAt(b, i, n)] + DecodeFrom(b, i + n, ext)
  {
  }

  lemma StopsHere(b: seq<Byte>, i: nat, ext: bool)
    requires i < |b| && !SequenceAt(b, i, ext)
    ensures !WellFormedFrom(b, i, ext)
  {
  }

  lemma OneMore(b: seq<Byte>, i: nat, ext: bool, seen: seq<nat>)
    requires SequenceAt(b, i, ext)
    ensures var n := RowOf(b[i], ext).n;
      && 0 < n && i + n <= |b| && (WellFormedFrom(b, i, ext) <==> WellFormedFrom(b, i + n, ext))
      && (WellFormedFrom(b, i, ext) ==>
            seen + DecodeFrom(b, i, ext) == seen + [ValueAt(b, i, n)] + DecodeFrom(b, i + n, ext))
  {
    hide ValueAt, RowOf;
  }

  lemma LimitGrows(v: nat, w: nat)
    ensures Limit(v) <= Limit(if v < w then w else v) && Limit(w) <= Limit(if v < w then w else v)
  {
  }

  /** The width is that of some character. */
  lemma WiderSeen(was: seq<nat>, seen: seq<nat>, width: nat, w: nat)
    requires |seen| == |was| + 1 && (forall k :: 0 <= k < |was| ==> seen[k] == was[k])
    requires width > 0 ==> exists k :: 0 <= k < |was| && was[k] >= Limit(width - 1)
    requires w > 0 ==> seen[|was|] >= Limit(w - 1)
    ensures var v := if width < w then w else width; v > 0 ==> exists k :: 0 <= k < |seen| && seen[k] >= Limit(v - 1)
  {
    if width > 0 {
      var k :| 0 <= k < |was| && was[k] >= Limit(width - 1);
      assert seen[k] >= Limit(width - 1);
    }
  }

  lemma DecodeStarts(b: seq<Byte>, ext: bool)
    ensures WellFormed(b, ext) <==> WellFormedFrom(b, 0, ext)
    ensures WellFormed(b, ext) ==> Decode(b, ext) == [] + DecodeFrom(b, 0, ext)
    ensures WellFormedFrom(b, |b|, ext) && DecodeFrom(b, |b|, ext) == []
  {
  }

  /** First pass: whether the bytes are well-formed, how many characters they stand for, and how wide
      these are. */
  method CheckUtf8(b: seq<Byte>, ext: bool) returns (ok: bool, len: nat, width: nat)
    ensures ok <==> WellFormed(b, ext)
    ensures ok ==> len == |Decode(b, ext)| && width <= 2
    ensures ok ==> forall k :: 0 <= k < len ==> Decode(b, ext)[k] < Limit(width)
    ensures ok && width > 0 ==> exists k :: 0 <= k < len && Decode(b, ext)[k] >= Limit(width - 1)
  {
    hide RowOf, ValueAt, SequenceAt, Limit, DecodeFrom, WellFormedFrom;
    DecodeStarts(b, ext);
    ok, len, width := true, 0, 0;
    var i: nat := 0;
    ghost var seen: seq<nat> := [];
    while i < |b|
      invariant i <= |b| && ok && |seen| == len && width <= 2
      invariant WellFormed(b, ext) <==> WellFormedFrom(b, i, ext)
      invariant WellFormed(b, ext) ==> Decode(b, ext) == seen + DecodeFrom(b, i, ext)
      invariant forall k :: 0 <= k < len ==> seen[k] < Limit(width)
      invariant width > 0 ==> exists k :: 0 <= k < len && seen[k] >= Limit(width - 1)
    {
      var j, w;
      ok, j, w := ScanChar(b, i, ext);
      if !ok {
        StopsHere(b, i, ext);
        return;
      }
      WidthOf(b, i, ext, w);
      Extent(b, i, ext);
      OneMore(b, i, ext, seen);
      LimitGrows(width, w);
      len := len + 1;
      ghost var was := seen;
      seen := was + [ValueAt(b, i, RowOf(b[i], ext).n)];
      WiderSeen(was, seen, width, w);
      width := if width < w then w else width;
      i := j + 1;
    }
    if width > 0 {
      ghost var k :| 0 <= k < len && seen[k] >= Limit(width - 1);
      assert Decode(b, ext)[k] == seen[k];
    }
  }

  /** Second pass: one character of a string of known width, without tests. */
  method ReadChar(b: seq<Byte>, i0: nat, width: nat, ghost ext: bool) returns (c: nat, i: nat)
    requires SequenceAt(b, i0, ext) && ValueAt(b, i0, RowOf(b[i0], ext).n) < Limit(width)
    ensures i == i0 + RowOf(b[i0], ext).n && c == ValueAt(b, i0, RowOf(b[i0], ext).n)
  {
    ghost var n := RowOf(b[i0], ext).n;
    SequenceIsChar(b, i0, ext);
    EncodedSize(ValueAt(b, i0, n));
    ValueIsWritten(b, i0, n);
    hide ValueAt, EncodeChar;
    c, i := b[i0], i0 + 1;
    if c >= 0x80 {
      if width == 0 {
        var c2: nat := b[i] % 64;
        i := i + 1;
        c := c % 32 * 0x40 + c2;
      } else if width == 1 {
        if c / 32 == 6 {
          var c2: nat := b[i] % 64;
          i := i + 1;
          c := c % 32 * 0x40 + c2;
        } else {
          var c2: nat := b[i] % 64;
          i := i + 1;
          var c3: nat := b[i] % 64;
          i := i + 1;
          c := c % 16 * 0x1000 + c2 * 0x40 + c3;
        }
      } else {
        c, i := ReadWide(b, i0, ext);
      }
    }
  }

  method ReadWide(b: seq<Byte>, i0: nat, ghost ext: bool) returns (c: nat, i: nat)
    requires SequenceAt(b, i0, ext) && b[i0] >= 0x80
    ensures i == i0 + RowOf(b[i0], ext).n && c == ValueAt(b, i0, RowOf(b[i0], ext).n)
  {
    ghost var n := RowOf(b[i0], ext).n;
    c, i := b[i0], i0 + 1;
    var cont: nat;
    if c / 32 == 6 {
      cont, c := 1, c % 32;
    } else if c / 16 == 14 {
      cont, c := 2, c % 16;
    } else if c / 8 == 30 {
      cont, c := 3, c % 8;
    } else if c / 4 == 62 {
      cont, c := 4, c % 4;
    } else if c / 2 == 126 {
      cont, c := 5, c % 2;
    } else {
      cont, c := 6, 0;
    }
    assert cont + 1 == n && c == LeadBits(b[i0], n);
    hide RowOf, LeadBits;
    while cont > 0
      invariant i + cont == i0 + n && i0 < i && c == Prefix(b, i0, n, i - i0)
    {
      var c2: nat := b[i] % 64;
      i := i + 1;
      c := c * 64 + c2;
      cont := cont - 1;
    }
    PrefixIsValue(b, i0, n, n);
  }

  /** Decodes bytes; fails exactly when they are not well-formed. */
  method Utf8ToString(b: seq<Byte>, ext: bool) returns (ok: bool, r: seq<nat>)
    ensures ok <==> WellFormed(b, ext)
    ensures ok ==> r == Decode(b, ext)
  {
    hide RowOf, ValueAt, SequenceAt, WellFormedFrom, DecodeFrom, Decode;
    if forall k :: 0 <= k < |b| ==> b[k] <= 0x7f {
      PlainDecode(b, ext);
      return true, b;
    }
    var len, width;
    ok, len, width := CheckUtf8(b, ext);
    if !ok {
      return false, [];
    }
    ghost var whole := Decode(b, ext);
    if len == |b| {
      OneEach(b, ext);
      return true, b;
    }
    var out := new nat[len](_ => 0);
    var i, j: nat := 0, 0;
    DecodeIs(b, ext);
    while i < |b|
      invariant i <= |b| && j <= len && WellFormedFrom(b, i, ext)
      invariant out[..j] + DecodeFrom(b, i, ext) == whole
    {
      var c, next;
      Next(b, i, ext);
      assert whole[j] == ValueAt(b, i, RowOf(b[i], ext).n);
      c, next := ReadChar(b, i, width, ext);
      out[j] := c;
      assert out[..j + 1] == out[..j] + [c];
      i, j := next, j + 1;
    }
    NothingBehind(b, ext);
    assert out[..j] == out[..];
    r := out[..];
  }

  lemma DecodeIs(b: seq<Byte>, ext: bool)
    requires WellFormed(b, ext)
    ensures WellFormedFrom(b, 0, ext) && Decode(b, ext) == DecodeFrom(b, 0, ext)
  {
  }

  lemma NothingBehind(b: seq<Byte>, ext: bool)
    ensures WellFormedFrom(b, |b|, ext) && DecodeFrom(b, |b|, ext) == []
  {
  }

  lemma PlainDecode(b: seq<Byte>, ext: bool)
    requires forall k :: 0 <= k < |b| ==> b[k] <= 0x7f
    ensures WellFormed(b, ext) && Decode(b, ext) == b
  {
    PlainEncode(b);
    EncodableMore(b, false);
    forall k | 0 <= k < |b| ensures Encodable(b[k], ext) {
    }
    RoundTrip(b, ext);
  }

  lemma OneEach(b: seq<Byte>, ext: bool)
    requires WellFormed(b, ext) && |Decode(b, ext)| == |b|
    ensures Decode(b, ext) == b
  {
    InverseRoundTrip(b, ext);
    OneByteEach(Decode(b, ext));
  }
}
