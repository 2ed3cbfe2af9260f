/**
 The Unicode table of a PSF2 font: the writer of
 support/thirdparty/terminus-font-4.49.1/bin/bdftopsf.py and the reader of
 kernel/raster/psf.c.  Codes are UTF-8 (section 3 of RFC 3629); a byte FF ends the
 codes of a glyph.

 Masks and shifts of bytes are written as divisions and remainders.
 */
module Psf {
  import opened Basics

  // ------------------------------------------------------------ writing

  /** write_unicode, for version 2 */
  function WriteUnicode(code: nat): (bytes: seq<Byte>)
    requires code <= 0x10ffff
  {
    if code <= 0x7f then [code]
    else if code == 0xfffe || code == 0xffff then [code % 0x100]
    else if code <= 0x7ff then [0xc0 + code / 0x40, 0x80 + code % 0x40]
    else if code <= 0xffff then [0xe0 + code / 0x1000, 0x80 + code / 0x40 % 0x40, 0x80 + code % 0x40]
    else [0xf0 + code / 0x4_0000, 0x80 + code / 0x1000 % 0x40, 0x80 + code / 0x40 % 0x40, 0x80 + code % 0x40]
  }

  /** A glyph with its own code, FFFF for none, and the extra codes of the tables. */
  datatype Glyph = Glyph(code: nat, extra: seq<nat>)

  function Codes(g: Glyph): seq<nat>
  {
    (if g.code != 0xffff then [g.code] else []) + g.extra
  }

  /** The code of a character: neither the separator FFFE, which introduces a sequence, nor the end FFFF. */
  predicate PlainCode(c: nat) { c <= 0x10ffff && c != 0xfffe && c != 0xffff }

  /** Characters and separators. */
  ghost predicate Plain(codes: seq<nat>)
  {
    forall i :: 0 <= i < |codes| ==> PlainCode(codes[i]) || codes[i] == 0xfffe
  }

  ghost predicate PlainFont(font: seq<Glyph>)
  {
    forall g :: 0 <= g < |font| ==> Plain(Codes(font[g]))
  }

  ghost function WrittenCodes(codes: seq<nat>): seq<Byte>
    requires Plain(codes)
  {
    if codes == [] then [] else WriteUnicode(codes[0]) + WrittenCodes(codes[1..])
  }

  ghost function Written(font: seq<Glyph>): seq<Byte>
    requires PlainFont(font)
  {
    if font == [] then [] else WrittenCodes(Codes(font[0])) + [0xff] + Written(font[1..])
  }

  lemma {:induction false} WrittenCodesSnoc(codes: seq<nat>, c: nat)
    requires Plain(codes + [c])
    ensures Plain(codes) && c <= 0x10ffff && WrittenCodes(codes + [c]) == WrittenCodes(codes) + WriteUnicode(c)
  {
    hide WriteUnicode;
    assert (codes + [c])[|codes|] == c;
    assert forall i :: 0 <= i < |codes| ==> codes[i] == (codes + [c])[i];
    if codes == [] {
      assert [c][1..] == [];
    } else {
      assert (codes + [c])[1..] == codes[1..] + [c];
      WrittenCodesSnoc(codes[1..], c);
    }
  }

  lemma WrittenFirst(font: seq<Glyph>)
    requires PlainFont(font) && font != []
    ensures PlainFont(font[1..]) && Plain(Codes(font[0]))
    ensures Written(font) == WrittenCodes(Codes(font[0])) + [0xff] + Written(font[1..])
  {}

  lemma {:induction false} WrittenSnoc(font: seq<Glyph>, g: Glyph)
    requires PlainFont(font + [g])
    ensures PlainFont(font) && Plain(Codes(g)) && Written(font + [g]) == Written(font) + WrittenCodes(Codes(g)) + [0xff]
  {
    hide WrittenCodes, Plain, Codes, Written;
    assert (font + [g])[|font|] == g;
    assert forall i :: 0 <= i < |font| ==> font[i] == (font + [g])[i];
    WrittenFirst(font + [g]);
    if font == [] {
      assert [g][1..] == [];
      WrittenNothing();
    } else {
      assert (font + [g])[1..] == font[1..] + [g];
      WrittenSnoc(font[1..], g);
      WrittenFirst(font);
    }
  }

  /** The Unicode part of write_psf. */
  method WriteTable(font: seq<Glyph>) returns (out: seq<Byte>)
    requires PlainFont(font)
    ensures out == Written(font)
  {
    hide WriteUnicode, WrittenCodes, Written;
    out := [];
    assert Written(font[..0]) == [] by { WrittenNothing(); }
    for i := 0 to |font|
      invariant PlainFont(font[..i]) && out == Written(font[..i])
    {
      var g := font[i];
      assert font[..i + 1] == font[..i] + [g];
      WrittenSnoc(font[..i], g);
      var codes := WriteGlyph(g);
      out := out + codes + [0xff];
    }
    assert font[..|font|] == font;
  }

  lemma WrittenNothing()
    ensures Written([]) == [] && WrittenCodes([]) == []
  {}

  /** The codes of one glyph: its own unless it has none, then the extra ones. */
  method WriteGlyph(g: Glyph) returns (out: seq<Byte>)
    requires Plain(Codes(g))
    ensures out == WrittenCodes(Codes(g))
  {
    hide WriteUnicode, WrittenCodes;
    WrittenNothing();
    ghost var all := Codes(g);
    ghost var n := |all| - |g.extra|;
    out := [];
    if g.code != 0xffff {
      assert all[0] == g.code && [] + [g.code] == [g.code] == all[..1];
      WrittenCodesSnoc([], g.code);
      out := out + WriteUnicode(g.code);
    }
    for j := 0 to |g.extra|
      invariant out == WrittenCodes(all[..n + j])
    {
      assert all[n + j] == g.extra[j] && all[..n + j + 1] == all[..n + j] + [g.extra[j]];
      WrittenCodesSnoc(all[..n + j], g.extra[j]);
      out := out + WriteUnicode(g.extra[j]);
    }
    assert all[..|all|] == all;
  }

  // ------------------------------------------------------------ decoding one code

  /** utf8_get_bytes_len */
  function BytesLen(leading: Byte): int
  {
    if leading < 128 then 1
    else if leading / 0x20 == 6 then 2
    else if leading / 0x10 == 14 then 3
    else if leading / 8 == 30 then 4
    else -1
  }

  predicate Continues(b: Byte) { b / 0x40 == 2 }

  function Low(b: Byte, unit: nat): nat
    requires unit > 0
  {
    b % unit
  }

  /** utf8_to_codepoint; the caller has made sure that the bytes are there */
  function ToCodepoint(buf: seq<Byte>): int
    requires buf != [] && BytesLen(buf[0]) <= |buf|
  {
    if buf[0] < 128 then buf[0]
    else if buf[0] / 0x20 == 6 then
      if !Continues(buf[1]) then -1
      else Low(buf[0], 0x20) * 0x40 + Low(buf[1], 0x40)
    else if buf[0] / 0x10 == 14 then
      if !Continues(buf[1]) || !Continues(buf[2]) then -1
      else Low(buf[0], 0x10) * 0x1000 + Low(buf[1], 0x40) * 0x40 + Low(buf[2], 0x40)
    else if buf[0] / 8 == 30 then
      if !Continues(buf[1]) || !Continues(buf[2]) || !Continues(buf[3]) then -1
      else Low(buf[0], 8) * 0x4_0000 + Low(buf[1], 0x40) * 0x1000 + Low(buf[2], 0x40) * 0x40 + Low(buf[3], 0x40)
    else -1
  }

  /** The data ends, or a glyph ends, inside a code of len bytes. */
  ghost predicate Broken(buf: seq<Byte>, len: int)
  {
    |buf| < len || exists i :: 1 <= i < len <= |buf| && buf[i] == 0xff
  }

  /** psf2_will_eol_or_eof */
  method WillEolOrEof(data: seq<Byte>, base: nat, len: int) returns (r: bool)
    requires base < |data| && len >= 1
    ensures r <==> Broken(data[base..], len)
  {
    for i := 1 to len
      invariant base + i <= |data|
      invariant forall k :: 1 <= k < i ==> data[base..][k] != 0xff
    {
      if |data| <= base + i {
        return true;
      }
      if data[base + i] == 0xff {
        assert data[base..][i] == 0xff;
        return true;
      }
    }
    return false;
  }

  /** The next code and its length; an illegal byte stands for itself. */
  ghost function NextCode(buf: seq<Byte>): (r: (nat, nat))
    requires buf != []
    ensures 1 <= r.1 <= |buf|
  {
    var len := BytesLen(buf[0]);
    if len < 0 || Broken(buf, len) || ToCodepoint(buf) < 0 then (buf[0], 1) else (ToCodepoint(buf), len)
  }

  /** Byte i of the data is there and continues a code. */
  ghost predicate ContinuesAt(buf: seq<Byte>, i: nat)
  {
    i < |buf| && 0x80 <= buf[i] < 0xc0
  }

  /** The six bits that byte i contributes. */
  ghost function Six(buf: seq<Byte>, i: nat): nat
    requires ContinuesAt(buf, i)
  {
    var b: nat := buf[i];
    b - 0x80
  }

  /** The codes of one to four bytes by their values (table of section 3 of RFC 3629, without its lower and upper bounds); any other byte stands for itself. */
  lemma NextCodeByValues(buf: seq<Byte>)
    requires buf != []
    ensures var b: nat := buf[0];
            NextCode(buf) ==
              if 0xc0 <= b < 0xe0 && ContinuesAt(buf, 1) then
                (0x40 * (b - 0xc0) + Six(buf, 1), 2)
              else if 0xe0 <= b < 0xf0 && ContinuesAt(buf, 1) && ContinuesAt(buf, 2) then
                (0x1000 * (b - 0xe0) + 0x40 * Six(buf, 1) + Six(buf, 2), 3)
              else if 0xf0 <= b < 0xf8 && ContinuesAt(buf, 1) && ContinuesAt(buf, 2) && ContinuesAt(buf, 3) then
                (0x4_0000 * (b - 0xf0) + 0x1000 * Six(buf, 1) + 0x40 * Six(buf, 2) + Six(buf, 3), 4)
              else (b, 1)
  {
    var len := BytesLen(buf[0]);
    if |buf| < len {
      assert !ContinuesAt(buf, |buf|);
    } else if i :| 1 <= i < len && buf[i] == 0xff {
      assert !ContinuesAt(buf, i);
    }
  }

  /** A written code has the fewest bytes that hold it. */
  lemma ShortestForm(code: nat)
    requires PlainCode(code)
    ensures |WriteUnicode(code)| == if code < 0x80 then 1 else if code < 0x800 then 2 else if code < 0x1_0000 then 3 else 4
  {}

  /** Reading undoes writing, whatever follows. */
  lemma DecodesEncoded(code: nat, rest: seq<Byte>)
    requires PlainCode(code)
    ensures var bytes := WriteUnicode(code);
            bytes != [] && bytes[0] < 0xfe && NextCode(bytes + rest) == (code, |bytes|)
  {
    var bytes := WriteUnicode(code);
    var buf := bytes + rest;
    assert buf[0] == bytes[0];
    EncodedBytes(code);
    assert forall i :: 1 <= i < |bytes| ==> buf[i] == bytes[i];
    DecodedValue(code, buf);
    hide WriteUnicode, ToCodepoint, BytesLen;
  }

  /** The shape of a written code. */
  lemma EncodedBytes(code: nat)
    requires PlainCode(code)
    ensures var bytes := WriteUnicode(code);
            bytes != [] && bytes[0] < 0xfe && BytesLen(bytes[0]) == |bytes|
            && forall i :: 1 <= i < |bytes| ==> Continues(bytes[i]) && bytes[i] != 0xff
  {}

  lemma DecodedValue(code: nat, buf: seq<Byte>)
    requires PlainCode(code) && |WriteUnicode(code)| <= |buf| && buf[..|WriteUnicode(code)|] == WriteUnicode(code)
    ensures buf != [] && BytesLen(buf[0]) <= |buf| && ToCodepoint(buf) == code
  {
    EncodedBytes(code);
    var bytes := WriteUnicode(code);
    assert forall i :: 0 <= i < |bytes| ==> buf[i] == bytes[i];
    if code <= 0x7f {
    } else if code <= 0x7ff {
      Low6(code, 2);
    } else if code <= 0xffff {
      Low6(code, 3);
    } else {
      Low6(code, 4);
    }
  }

  /** The six-bit digits of a code. */
  lemma Low6(code: nat, digits: nat)
    requires PlainCode(code) && code > 0x7f && 2 <= digits <= 4
    ensures digits == 2 && code <= 0x7ff ==> (0xc0 + code / 0x40) % 0x20 * 0x40 + (0x80 + code % 0x40) % 0x40 == code
    ensures digits == 3 && code <= 0xffff ==>
              (0xe0 + code / 0x1000) % 0x10 * 0x1000 + (0x80 + code / 0x40 % 0x40) % 0x40 * 0x40 + (0x80 + code % 0x40) % 0x40 == code
    ensures digits == 4 ==>
              (0xf0 + code / 0x4_0000) % 8 * 0x4_0000 + (0x80 + code / 0x1000 % 0x40) % 0x40 * 0x1000
              + (0x80 + code / 0x40 % 0x40) % 0x40 * 0x40 + (0x80 + code % 0x40) % 0x40 == code
  {
    var m := code / 0x40;
    var n := m / 0x40;
    assert code == m * 0x40 + code % 0x40 && m == n * 0x40 + m % 0x40;
    assert n == code / 0x1000 && n / 0x40 == code / 0x4_0000;
    LowSix(code % 0x40);
    LowSix(m % 0x40);
    LowSix(n % 0x40);
    if digits == 2 && code <= 0x7ff {
      assert (0xc0 + m) % 0x20 == m;
    } else if digits == 3 && code <= 0xffff {
      assert (0xe0 + n) % 0x10 == n;
    } else if digits == 4 {
      assert (0xf0 + n / 0x40) % 8 == n / 0x40;
    }
  }

  lemma LowSix(x: nat)
    requires x < 0x40
    ensures (0x80 + x) % 0x40 == x
  {}

  // ------------------------------------------------------------ reading the table

  /** One assignment to the table. */
  datatype Entry = Entry(code: nat, glyph: nat)

  /** The assignments that the bytes call for, and the glyph number at which reading ends. */
  ghost function Scan(data: seq<Byte>, glyph: nat, count: nat): (r: (seq<Entry>, nat))
    ensures forall e :: e in r.0 ==> e.code <= 0xffff
    decreases |data|
  {
    if data == [] || count <= glyph then ([], glyph)
    else if data[0] == 0xff then Scan(data[1..], glyph + 1, count)
    else if data[0] == 0xfe then Scan(data[1..], glyph, count)
    else
      var (code, len) := NextCode(data);
      var rest := Scan(data[len..], glyph, count);
      if 0xffff < code then rest else ([Entry(code, glyph)] + rest.0, rest.1)
  }

  /** The number of elements of the kernel's table: one for each code but FFFF. */
  const TABLE_SIZE: nat := 0xffff

  /** One assignment; elements have 16 bits, and an assignment behind the table changes no element. */
  ghost function Assign(t: seq<nat>, e: Entry): (r: seq<nat>)
    ensures |r| == |t|
  {
    if e.code < |t| then t[e.code := e.glyph % 0x1_0000] else t
  }

  /** The table after the assignments. */
  ghost function Apply(t: seq<nat>, es: seq<Entry>): (r: seq<nat>)
    ensures |r| == |t|
  {
    if es == [] then t else Assign(Apply(t, es[..|es| - 1]), es[|es| - 1])
  }

  /** Two assignments in a row are for the same glyph. */
  ghost predicate Several(es: seq<Entry>)
  {
    exists i :: 0 < i < |es| && es[i - 1].glyph == es[i].glyph
  }

  lemma ApplySnoc(t: seq<nat>, es: seq<Entry>, e: Entry)
    ensures Apply(t, es + [e]) == Assign(Apply(t, es), e)
  {
    assert (es + [e])[..|es|] == es;
  }

  /** One step of Scan over a single code. */
  lemma ScanCode(data: seq<Byte>, glyph: nat, count: nat)
    requires data != [] && glyph < count && data[0] < 0xfe
    ensures var (code, len) := NextCode(data);
            Scan(data, glyph, count) ==
            if 0xffff < code then Scan(data[len..], glyph, count)
            else ([Entry(code, glyph)] + Scan(data[len..], glyph, count).0, Scan(data[len..], glyph, count).1)
  {}

  /**
   read_psf2_utf8_entries.  `overrun` says that an element behind the end of the table
   was written.
   */
  method ReadEntries(data: seq<Byte>, count: nat, table: array<nat>) returns (several: bool, glyph: nat, overrun: bool)
    requires table.Length == TABLE_SIZE
    modifies table
    ensures table[..] == Apply(old(table[..]), Scan(data, 0, count).0)
    ensures several <==> Several(Scan(data, 0, count).0)
    ensures glyph == Scan(data, 0, count).1
    // it writes behind the table exactly if the bytes name the code FFFF
    ensures overrun <==> NamesFfff(data, 0, count)
  {
    hide Apply, NextCode, ToCodepoint, BytesLen;
    var next, got := 0, false;
    several, glyph, overrun := false, 0, false;
    ghost var done: seq<Entry> := [];
    ApplyNothing(table[..]);
    assert data[0..] == data;
    while next < |data| && glyph < count
      invariant 0 <= next <= |data|
      invariant done + Scan(data[next..], glyph, count).0 == Scan(data, 0, count).0
      invariant Scan(data[next..], glyph, count).1 == Scan(data, 0, count).1
      invariant forall e :: e in done ==> e.code <= 0xffff && e.glyph <= glyph
      invariant table[..] == Apply(old(table[..]), done)
      invariant several <==> Several(done)
      invariant overrun <==> Beyond(done)
      invariant got <==> done != [] && done[|done| - 1].glyph == glyph
      decreases |data| - next
    {
      var byt := data[next];
      ghost var rest := data[next..];
      assert rest[0] == byt && rest[1..] == data[next + 1..];
      if byt == 0xff {
        next, glyph, got := next + 1, glyph + 1, false;
        continue;
      }
      if byt == 0xfe {
        next := next + 1;
        continue;
      }
      ScanCode(rest, glyph, count);
      var unicode, len := ReadCode(data, next);
      assert rest[len..] == data[next + len..];
      hide Scan;
      next := next + len;
      if 0xffff < unicode {
        continue;
      }
      if got {
        several := true;
      }
      got := true;
      SeveralSnoc(done, Entry(unicode, glyph));
      ApplySnoc(old(table[..]), done, Entry(unicode, glyph));
      if unicode < table.Length {
        table[unicode] := glyph % 0x1_0000;
      } else {
        overrun := true;
      }
      BeyondSnoc(done, Entry(unicode, glyph));
      done := done + [Entry(unicode, glyph)];
    }
    assert Scan(data[next..], glyph, count) == ([], glyph);
    assert done + [] == done;
    BeyondExactly(data, 0, count);
  }

  /** Some assignment is for the code FFFF, for which the table has no element. */
  ghost predicate Beyond(es: seq<Entry>)
  {
    exists i :: 0 <= i < |es| && es[i].code == TABLE_SIZE
  }

  lemma BeyondSnoc(es: seq<Entry>, e: Entry)
    ensures Beyond(es + [e]) <==> Beyond(es) || e.code == TABLE_SIZE
  {
    var fs := es + [e];
    if Beyond(es) {
      var i :| 0 <= i < |es| && es[i].code == TABLE_SIZE;
      assert fs[i].code == TABLE_SIZE;
    }
    assert fs[|es|] == e;
  }

  lemma BeyondCons(e: Entry, es: seq<Entry>)
    ensures Beyond([e] + es) <==> e.code == TABLE_SIZE || Beyond(es)
  {
    var fs := [e] + es;
    assert fs[0] == e;
    if Beyond(es) {
      var i :| 0 <= i < |es| && es[i].code == TABLE_SIZE;
      assert fs[i + 1].code == TABLE_SIZE;
    }
    if Beyond(fs) && e.code != TABLE_SIZE {
      var i :| 0 <= i < |fs| && fs[i].code == TABLE_SIZE;
      assert es[i - 1].code == TABLE_SIZE;
    }
  }

  // ------------------------------------------------------------ when the table is overrun

  /** The bytes begin with U+FFFF, in the three-byte form or in the overlong four-byte form. */
  predicate EncodesFfff(buf: seq<Byte>)
  {
    || (|buf| >= 3 && buf[0] == 0xef && buf[1] == 0xbf && buf[2] == 0xbf)
    || (|buf| >= 4 && buf[0] == 0xf0 && buf[1] == 0x8f && buf[2] == 0xbf && buf[3] == 0xbf)
  }

  /** The number of FF bytes, which end the codes of a glyph. */
  function GlyphEnds(buf: seq<Byte>): nat
  {
    if buf == [] then 0 else (if buf[0] == 0xff then 1 else 0) + GlyphEnds(buf[1..])
  }

  /** U+FFFF is encoded at position pos, before the codes of `count` glyphs have ended. */
  predicate FfffAt(data: seq<Byte>, glyph: nat, count: nat, pos: nat)
  {
    pos < |data| && EncodesFfff(data[pos..]) && glyph + GlyphEnds(data[..pos]) < count
  }

  ghost predicate NamesFfff(data: seq<Byte>, glyph: nat, count: nat)
  {
    exists pos: nat :: FfffAt(data, glyph, count, pos)
  }

  /** A code is FFFF exactly in one of the two forms. */
  lemma NextIsFfff(buf: seq<Byte>)
    requires buf != []
    ensures NextCode(buf).0 == 0xffff <==> EncodesFfff(buf)
  {
    if EncodesFfff(buf) {
      assert !Broken(buf, BytesLen(buf[0]));
    }
    if NextCode(buf).0 == 0xffff {
      NotFfff(buf);
    }
  }

  lemma NotFfff(buf: seq<Byte>)
    requires buf != [] && 0 <= BytesLen(buf[0]) <= |buf| && ToCodepoint(buf) == 0xffff
    ensures EncodesFfff(buf)
  {}

  /** Behind its first byte, a code has only continuation bytes: none ends a glyph or begins U+FFFF. */
  lemma CodeInside(buf: seq<Byte>, i: nat)
    requires buf != [] && buf[0] < 0xfe && i < NextCode(buf).1
    ensures buf[i] != 0xff && (i > 0 ==> !EncodesFfff(buf[i..]))
  {
    if i > 0 {
      assert Continues(buf[i]);
      assert buf[i..][0] == buf[i];
    }
  }

  lemma {:induction false} GlyphEndsConcat(a: seq<Byte>, b: seq<Byte>)
    ensures GlyphEnds(a + b) == GlyphEnds(a) + GlyphEnds(b)
  {
    if a == [] {
      assert a + b == b;
    } else {
      assert (a + b)[1..] == a[1..] + b;
      GlyphEndsConcat(a[1..], b);
    }
  }

  /** Positions behind the first len bytes, which begin no U+FFFF except possibly at once. */
  lemma NamesBehind(data: seq<Byte>, len: nat, glyph: nat, count: nat)
    requires 0 < len <= |data| && glyph < count
    requires forall i :: 0 < i < len ==> !EncodesFfff(data[i..])
    ensures NamesFfff(data, glyph, count) <==>
            EncodesFfff(data) || NamesFfff(data[len..], glyph + GlyphEnds(data[..len]), count)
  {
    var rest, g := data[len..], glyph + GlyphEnds(data[..len]);
    assert data[0..] == data && data[..0] == [];
    forall pos: nat | pos < |rest|
      ensures FfffAt(rest, g, count, pos) <==> FfffAt(data, glyph, count, len + pos)
    {
      assert rest[pos..] == data[len + pos..];
      assert data[..len + pos] == data[..len] + rest[..pos];
      GlyphEndsConcat(data[..len], rest[..pos]);
    }
    if EncodesFfff(data) {
      assert FfffAt(data, glyph, count, 0);
    }
    if NamesFfff(rest, g, count) {
      var pos: nat :| FfffAt(rest, g, count, pos);
      assert FfffAt(data, glyph, count, len + pos);
    }
    if NamesFfff(data, glyph, count) && !EncodesFfff(data) {
      var pos: nat :| FfffAt(data, glyph, count, pos);
      assert pos >= len;
      assert FfffAt(rest, g, count, pos - len);
    }
  }

  /** The assignments name FFFF if and only if U+FFFF is encoded before the last glyph ends. */
  lemma {:induction false} BeyondExactly(data: seq<Byte>, glyph: nat, count: nat)
    ensures Beyond(Scan(data, glyph, count).0) <==> NamesFfff(data, glyph, count)
    decreases |data|
  {
    hide NextCode, EncodesFfff;
    if data == [] {
    } else if count <= glyph {
      assert !NamesFfff(data, glyph, count);
    } else if data[0] == 0xff || data[0] == 0xfe {
      NotAtEnd(data);
      OneByte(data);
      NamesBehind(data, 1, glyph, count);
      BeyondExactly(data[1..], if data[0] == 0xff then glyph + 1 else glyph, count);
    } else {
      var (code, len) := NextCode(data);
      ScanCode(data, glyph, count);
      NextIsFfff(data);
      forall i | 0 < i < len
        ensures !EncodesFfff(data[i..])
      {
        CodeInside(data, i);
      }
      NoEndInside(data, len);
      NamesBehind(data, len, glyph, count);
      BeyondExactly(data[len..], glyph, count);
      hide Scan;
      if code <= 0xffff {
        BeyondCons(Entry(code, glyph), Scan(data[len..], glyph, count).0);
      }
    }
  }

  lemma NotAtEnd(data: seq<Byte>)
    requires data != [] && (data[0] == 0xff || data[0] == 0xfe)
    ensures !EncodesFfff(data)
  {}

  lemma OneByte(data: seq<Byte>)
    requires data != []
    ensures GlyphEnds(data[..1]) == if data[0] == 0xff then 1 else 0
  {
    assert data[..1][1..] == [];
  }

  lemma {:induction false} NoEndInside(data: seq<Byte>, len: nat)
    requires data != [] && data[0] < 0xfe && len <= NextCode(data).1
    ensures GlyphEnds(data[..len]) == 0
  {
    if len > 0 {
      NoEndInside(data, len - 1);
      CodeInside(data, len - 1);
      assert data[..len] == data[..len - 1] + [data[len - 1]];
      GlyphEndsConcat(data[..len - 1], [data[len - 1]]);
      OneByte([data[len - 1]]);
      assert [data[len - 1]][..1] == [data[len - 1]];
    }
  }

  /** A font of one glyph that overruns the table. */
  lemma OverrunFont()
    ensures NamesFfff([0xef, 0xbf, 0xbf, 0xff], 0, 1)
    ensures Entry(0xffff, 0) in Scan([0xef, 0xbf, 0xbf, 0xff], 0, 1).0
  {
    var data: seq<Byte> := [0xef, 0xbf, 0xbf, 0xff];
    assert data[0..] == data && data[..0] == [];
    assert FfffAt(data, 0, 1, 0);
    NextIsFfff(data);
    ScanCode(data, 0, 1);
  }

  lemma ApplyNothing(t: seq<nat>)
    ensures Apply(t, []) == t
  {}

  lemma SeveralSnoc(es: seq<Entry>, e: Entry)
    ensures Several(es + [e]) <==> Several(es) || (es != [] && es[|es| - 1].glyph == e.glyph)
  {
    var fs := es + [e];
    if Several(es) {
      var i :| 0 < i < |es| && es[i - 1].glyph == es[i].glyph;
      assert fs[i - 1].glyph == fs[i].glyph;
    }
    if es != [] && es[|es| - 1].glyph == e.glyph {
      assert fs[|es| - 1].glyph == fs[|es|].glyph;
    }
  }

  /** The decoding of one code in the loop. */
  method ReadCode(data: seq<Byte>, next: nat) returns (unicode: nat, len: nat)
    requires next < |data|
    ensures NextCode(data[next..]) == (unicode, len)
  {
    ghost var rest := data[next..];
    var byt := data[next];
    var bytesLen := BytesLen(byt);
    if bytesLen < 0 {
      return byt, 1;
    }
    var ends := WillEolOrEof(data, next, bytesLen);
    if ends {
      return byt, 1;
    }
    hide BytesLen;
    var code := ToCodepoint(data[next..]);
    if code < 0 {
      return byt, 1;
    }
    return code, bytesLen;
  }

  // ------------------------------------------------------------ the round trip

  /** The code gets an entry of the table: separators are skipped, and codes beyond the basic plane do not fit. */
  predicate Tabled(c: nat) { c <= 0xffff && c != 0xfffe }

  /** The assignments for the codes of glyph g that fit the table. */
  ghost function GlyphEntries(codes: seq<nat>, g: nat): (es: seq<Entry>)
    ensures forall e :: e in es ==> e.code <= 0xffff
  {
    if codes == [] then []
    else (if Tabled(codes[0]) then [Entry(codes[0], g)] else []) + GlyphEntries(codes[1..], g)
  }

  ghost function FontEntries(font: seq<Glyph>, g: nat): (es: seq<Entry>)
    ensures forall e :: e in es ==> e.code <= 0xffff
    decreases |font| - g
  {
    if |font| <= g then [] else GlyphEntries(Codes(font[g]), g) + FontEntries(font, g + 1)
  }

  /** Scanning the written codes of one glyph. */
  lemma {:induction false} ScanGlyph(codes: seq<nat>, rest: seq<Byte>, g: nat, count: nat)
    requires Plain(codes) && g < count
    ensures var tail := Scan(rest, g + 1, count);
            Scan(WrittenCodes(codes) + [0xff] + rest, g, count) == (GlyphEntries(codes, g) + tail.0, tail.1)
    decreases |codes|
  {
    hide WriteUnicode, NextCode, ToCodepoint, BytesLen;
    var tail := Scan(rest, g + 1, count);
    var data := WrittenCodes(codes) + [0xff] + rest;
    if codes == [] {
      assert data[1..] == rest;
      assert [] + tail.0 == tail.0;
    } else {
      var c := codes[0];
      assert PlainCode(c) || c == 0xfffe;
      var bytes := WriteUnicode(c);
      var more := WrittenCodes(codes[1..]) + [0xff] + rest;
      assert data == bytes + more;
      ScanGlyph(codes[1..], rest, g, count);
      if c == 0xfffe {
        SeparatorSkipped(more, g, count);
      } else {
        DecodesEncoded(c, more);
        ScanCode(data, g, count);
      }
      assert data[|bytes|..] == more;
      hide Scan;
      var later := GlyphEntries(codes[1..], g);
      assert [Entry(c, g)] + (later + tail.0) == [Entry(c, g)] + later + tail.0;
      assert GlyphEntries(codes, g) == if Tabled(c) then [Entry(c, g)] + later else later;
    }
  }

  lemma SeparatorSkipped(more: seq<Byte>, g: nat, count: nat)
    requires g < count
    ensures WriteUnicode(0xfffe) == [0xfe] && Scan([0xfe] + more, g, count) == Scan(more, g, count)
  {
    var data: seq<Byte> := [0xfe] + more;
    assert data[1..] == more && data[0] == 0xfe;
  }

  /** Scanning a written font yields the assignments of its glyphs and ends at the glyph count, whatever follows. */
  lemma {:induction false} ScanFont(font: seq<Glyph>, g: nat, rest: seq<Byte>)
    requires PlainFont(font) && g <= |font|
    ensures PlainFont(font[g..]) && Scan(Written(font[g..]) + rest, g, |font|) == (FontEntries(font, g), |font|)
    decreases |font| - g
  {
    hide WrittenCodes, NextCode, Codes;
    assert forall i :: 0 <= i < |font| - g ==> font[g..][i] == font[g + i];
    if g < |font| {
      assert font[g..][1..] == font[g + 1..] && font[g..][0] == font[g];
      ScanFont(font, g + 1, rest);
      ScanGlyph(Codes(font[g]), Written(font[g + 1..]) + rest, g, |font|);
      var codes, more := WrittenCodes(Codes(font[g])) + [0xff], Written(font[g + 1..]);
      assert Written(font[g..]) + rest == codes + (more + rest);
    } else {
      assert [] + rest == rest;
    }
  }

  lemma {:induction false} ApplyConcat(t: seq<nat>, es: seq<Entry>, fs: seq<Entry>)
    ensures Apply(t, es + fs) == Apply(Apply(t, es), fs)
    decreases |fs|
  {
    if fs == [] {
      assert es + fs == es;
    } else {
      var n := |fs| - 1;
      assert (es + fs)[..|es + fs| - 1] == es + fs[..n];
      ApplyConcat(t, es, fs[..n]);
    }
  }

  lemma {:induction false} ApplyGlyph(t: seq<nat>, codes: seq<nat>, g: nat, u: nat)
    requires |t| == TABLE_SIZE && u < TABLE_SIZE
    ensures Apply(t, GlyphEntries(codes, g))[u] == if u in codes && u != 0xfffe then g % 0x1_0000 else t[u]
    decreases |codes|
  {
    if codes != [] {
      var first := if Tabled(codes[0]) then [Entry(codes[0], g)] else [];
      var rest := GlyphEntries(codes[1..], g);
      ApplyConcat(t, first, rest);
      if first != [] {
        ApplySnoc(t, [], first[0]);
        ApplyNothing(t);
        assert [] + [first[0]] == first;
      } else {
        ApplyNothing(t);
      }
      var t' := Apply(t, first);
      assert t'[u] == if u == codes[0] && u != 0xfffe then g % 0x1_0000 else t[u];
      ApplyGlyph(t', codes[1..], g, u);
    }
  }

  ghost predicate Lists(font: seq<Glyph>, g: nat, u: nat)
  {
    g < |font| && u in Codes(font[g]) && u != 0xfffe
  }

  /** Of all glyphs from g on that list the code, the last one is assigned. */
  lemma {:induction false} LastGlyphWins(t: seq<nat>, font: seq<Glyph>, g: nat, u: nat)
    requires |t| == TABLE_SIZE && u < TABLE_SIZE && g <= |font|
    ensures forall h: nat :: g <= h && Lists(font, h, u) && (forall k: nat :: h < k ==> !Lists(font, k, u)) ==>
              Apply(t, FontEntries(font, g))[u] == h % 0x1_0000
    ensures (forall h: nat :: g <= h ==> !Lists(font, h, u)) ==> Apply(t, FontEntries(font, g))[u] == t[u]
    decreases |font| - g
  {
    hide Codes, GlyphEntries;
    if g < |font| {
      var first := GlyphEntries(Codes(font[g]), g);
      ApplyConcat(t, first, FontEntries(font, g + 1));
      ApplyGlyph(t, Codes(font[g]), g, u);
      assert Lists(font, g, u) <==> u in Codes(font[g]) && u != 0xfffe;
      LastGlyphWins(Apply(t, first), font, g + 1, u);
    }
  }

  lemma {:induction false} GlyphEntriesPlain(codes: seq<nat>, g: nat)
    requires Plain(codes)
    ensures !Beyond(GlyphEntries(codes, g))
  {
    if codes != [] {
      var later := GlyphEntries(codes[1..], g);
      GlyphEntriesPlain(codes[1..], g);
      assert codes[0] != 0xffff;
      if Tabled(codes[0]) {
        BeyondCons(Entry(codes[0], g), later);
      } else {
        assert GlyphEntries(codes, g) == later;
      }
    }
  }

  lemma {:induction false} BeyondConcat(es: seq<Entry>, fs: seq<Entry>)
    requires !Beyond(es) && !Beyond(fs)
    ensures !Beyond(es + fs)
  {
    forall i | 0 <= i < |es + fs|
      ensures (es + fs)[i].code != TABLE_SIZE
    {
      if i < |es| {
        assert es[i].code != TABLE_SIZE;
      } else {
        assert fs[i - |es|].code != TABLE_SIZE;
      }
    }
  }

  /** The assignments of a font stay inside the table. */
  lemma {:induction false} FontEntriesPlain(font: seq<Glyph>, g: nat)
    requires PlainFont(font)
    ensures !Beyond(FontEntries(font, g))
    decreases |font| - g
  {
    hide Codes, Beyond, GlyphEntries;
    if g < |font| {
      GlyphEntriesPlain(Codes(font[g]), g);
      FontEntriesPlain(font, g + 1);
      BeyondConcat(GlyphEntries(Codes(font[g]), g), FontEntries(font, g + 1));
    } else {
      NothingBeyond();
    }
  }

  lemma NothingBeyond()
    ensures !Beyond([])
  {}

  /**
   Reading the written table of any font, whatever follows it, maps every code that
   fits the table to the last glyph listing it, touches no other element, writes
   nothing behind the table, and ends at the glyph count.  The characters of a
   sequence count as codes of their glyph, one by one.
   */
  lemma RoundTrip(font: seq<Glyph>, rest: seq<Byte>, t: seq<nat>, u: nat)
    requires PlainFont(font) && |t| == TABLE_SIZE && u < TABLE_SIZE
    ensures var (entries, end) := Scan(Written(font) + rest, 0, |font|);
            && end == |font|
            && (forall g: nat :: Lists(font, g, u) && (forall k: nat :: g < k ==> !Lists(font, k, u)) ==> Apply(t, entries)[u] == g % 0x1_0000)
            && ((forall g: nat :: !Lists(font, g, u)) ==> Apply(t, entries)[u] == t[u])
    ensures !NamesFfff(Written(font) + rest, 0, |font|)
  {
    hide Codes, Beyond;
    assert font[0..] == font;
    ScanFont(font, 0, rest);
    LastGlyphWins(t, font, 0, u);
    FontEntriesPlain(font, 0);
    BeyondExactly(Written(font) + rest, 0, |font|);
  }
}
