/** Decoding of string tokens, and the escaper of the client as its inverse. */
module JsonString {
  import opened Options
  import opened Radix
  import opened JsonTokenizer
  import opened JsonStructure
  import opened JsonGrammar
  import opened JsonNavigate
  import opened JsonComplete

  /** hexval */
  function HexVal(c: byte): (v: int)
    ensures v == -1 <==> !HexDigit(c)
    ensures -1 <= v < 16
  {
    if 0x30 <= c <= 0x39 then c - 0x30
    else if 0x61 <= c <= 0x66 then c - 0x61 + 10
    else if 0x41 <= c <= 0x46 then c - 0x41 + 10
    else -1
  }

  /** The number written by the n hexadecimal digits at i, or -1. */
  function HexNumber(s: Text, i: nat, n: nat): (v: int)
    ensures v >= -1
    decreases n
  {
    if n == 0 then 0
    else if i + n > |s| then -1
    else
      var high := HexNumber(s, i, n - 1);
      var low := HexVal(s[i + n - 1]);
      if high < 0 || low < 0 then -1 else 16 * high + low
  }

  lemma {:induction false} HexBound(s: Text, i: nat)
    ensures HexNumber(s, i, 4) < 0x1_0000
  {
    assert HexNumber(s, i, 0) == 0;
    assert HexNumber(s, i, 1) < 0x10;
    assert HexNumber(s, i, 2) < 0x100;
    assert HexNumber(s, i, 3) < 0x1000;
  }

  // ---------- UTF-8 ----------

  /** utf8_emit: section 3 of RFC 3629. */
  function Utf8(cp: int): (s: Text)
    requires 0 <= cp < 0x11_0000
    ensures 1 <= |s| <= 4
  {
    if cp < 0x80 then [cp]
    else if cp < 0x800 then [0xc0 + cp / 0x40, 0x80 + cp % 0x40]
    else if cp < 0x1_0000 then [0xe0 + cp / 0x1000, 0x80 + cp / 0x40 % 0x40, 0x80 + cp % 0x40]
    else [0xf0 + cp / 0x4_0000, 0x80 + cp / 0x1000 % 0x40, 0x80 + cp / 0x40 % 0x40, 0x80 + cp % 0x40]
  }

  /** The marker bits and the payload bits do not overlap, so | adds them. */
  lemma MarkersAdd(x: bv8)
    ensures x < 0x20 ==> 0xc0 | x == 0xc0 + x
    ensures x < 0x10 ==> 0xe0 | x == 0xe0 + x
    ensures x < 0x08 ==> 0xf0 | x == 0xf0 + x
    ensures x < 0x40 ==> 0x80 | x == 0x80 + x
  {
    Marker2(x);
    Marker3(x);
    Marker4(x);
    Continuation(x);
  }

  lemma Marker2(x: bv8)
    ensures x < 0x20 ==> 0xc0 | x == 0xc0 + x
  {}

  lemma Marker3(x: bv8)
    ensures x < 0x10 ==> 0xe0 | x == 0xe0 + x
  {}

  lemma Marker4(x: bv8)
    ensures x < 0x08 ==> 0xf0 | x == 0xf0 + x
  {}

  lemma Continuation(x: bv8)
    ensures x < 0x40 ==> 0x80 | x == 0x80 + x
  {}

  /** The code point a UTF-8 sequence encodes; -1 for a sequence that is too short, too long or not minimal. */
  function Decoded(s: Text): int {
    if |s| == 1 then (if s[0] < 0x80 then s[0] as int else -1)
    else if |s| == 2 then
      var v := (s[0] as int - 0xc0) * 0x40 + (s[1] as int - 0x80);
      if 0xc0 <= s[0] < 0xe0 && 0x80 <= s[1] < 0xc0 && v >= 0x80 then v else -1
    else if |s| == 3 then
      var v := (s[0] as int - 0xe0) * 0x1000 + (s[1] as int - 0x80) * 0x40 + (s[2] as int - 0x80);
      if 0xe0 <= s[0] < 0xf0 && 0x80 <= s[1] < 0xc0 && 0x80 <= s[2] < 0xc0 && v >= 0x800 then v else -1
    else if |s| == 4 then
      var v := (s[0] as int - 0xf0) * 0x4_0000 + (s[1] as int - 0x80) * 0x1000 + (s[2] as int - 0x80) * 0x40 + (s[3] as int - 0x80);
      if 0xf0 <= s[0] < 0xf8 && 0x80 <= s[1] < 0xc0 && 0x80 <= s[2] < 0xc0 && 0x80 <= s[3] < 0xc0 && v >= 0x1_0000 then v else -1
    else -1
  }

  /** Every code point is emitted as its one minimal encoding. */
  lemma Utf8Decodes(cp: int)
    requires 0 <= cp < 0x11_0000
    ensures Decoded(Utf8(cp)) == cp
  {
    var a := cp / 0x40;
    var b := a / 0x40;
    assert cp / 0x1000 == b;
    assert cp / 0x4_0000 == b / 0x40;
  }

  /** Writes the bytes of cp at `at`; -1 when they do not fit. */
  method Utf8Emit(cp: int, out: array<byte>, at: nat) returns (r: int)
    requires 0 <= cp < 0x11_0000 && at <= out.Length
    modifies out
    ensures if at + |Utf8(cp)| > out.Length then r == -1 else r == at + |Utf8(cp)| && out[..r] == old(out[..at]) + Utf8(cp)
  {
    if cp < 0x80 {
      if at + 1 > out.Length {
        return -1;
      }
      out[at] := cp;
      r := at + 1;
    } else if cp < 0x800 {
      if at + 2 > out.Length {
        return -1;
      }
      out[at] := 0xc0 + cp / 0x40;
      out[at + 1] := 0x80 + cp % 0x40;
      r := at + 2;
    } else if cp < 0x1_0000 {
      if at + 3 > out.Length {
        return -1;
      }
      out[at] := 0xe0 + cp / 0x1000;
      out[at + 1] := 0x80 + cp / 0x40 % 0x40;
      out[at + 2] := 0x80 + cp % 0x40;
      r := at + 3;
    } else {
      if at + 4 > out.Length {
        return -1;
      }
      out[at] := 0xf0 + cp / 0x4_0000;
      out[at + 1] := 0x80 + cp / 0x1000 % 0x40;
      out[at + 2] := 0x80 + cp / 0x40 % 0x40;
      out[at + 3] := 0x80 + cp % 0x40;
      r := at + 4;
    }
    assert out[..r] == old(out[..at]) + Utf8(cp);
  }

  // ---------- unescaping ----------

  /** The character after the backslash of a one-character escape. */
  function SimpleValue(c: byte): byte
    requires SimpleEscape(c)
  {
    if c == 0x62 then 0x08 else if c == 0x66 then 0x0c else if c == 0x6e then 0x0a
    else if c == 0x72 then 0x0d else if c == 0x74 then 0x09 else c
  }

  /** A \uXXXX escape: its code point and its length, 12 for a surrogate pair. */
  datatype Unit = Bad | Unit(cp: int, len: nat)

  /** Section 7 of RFC 8259: code units above 0xffff come as a high and a low surrogate. */
  function UnicodeUnit(s: Text): (u: Unit)
    requires |s| >= 2 && s[0] == BACKSLASH && s[1] == 0x75
    ensures u.Unit? ==> 0 <= u.cp < 0x11_0000 && 2 <= u.len <= |s|
  {
    HexBound(s, 2);
    var high := HexNumber(s, 2, 4);
    if high < 0 then Bad
    else if 0xd800 <= high <= 0xdbff then
      if |s| < 12 || s[6] != BACKSLASH || s[7] != 0x75 then Bad
      else
        var low := HexNumber(s, 8, 4);
        if 0xdc00 <= low <= 0xdfff then Unit(0x1_0000 + (high - 0xd800) * 0x400 + (low - 0xdc00), 12) else Bad
    else if 0xdc00 <= high <= 0xdfff then Bad
    else Unit(high, 6)
  }

  /** The bytes a string token denotes, if its escapes are well-formed. */
  function Unescape(s: Text): Option<Text>
    decreases |s|
  {
    if |s| == 0 then Some([])
    else if s[0] != BACKSLASH then Prepend([s[0]], Unescape(s[1..]))
    else if |s| < 2 then None
    else if SimpleEscape(s[1]) then Prepend([SimpleValue(s[1])], Unescape(s[2..]))
    else if s[1] == 0x75 then
      var u := UnicodeUnit(s);
      if u.Bad? then None else Prepend(Utf8(u.cp), Unescape(s[u.len..]))
    else None
  }

  /** Four hexadecimal digits of src from p on, as the decoder reads them. */
  method ReadHex(src: Text, p: nat) returns (v: int)
    requires p + 4 <= |src|
    ensures v == HexNumber(src, p, 4)
  {
    var k := 0;
    v := 0;
    while k < 4
      invariant 0 <= k <= 4 && v >= 0 && v == HexNumber(src, p, k)
    {
      var h := HexVal(src[p + k]);
      if h < 0 {
        NoHex(src, p, k + 1, 4);
        return -1;
      }
      v := 16 * v + h;
      k := k + 1;
    }
  }

  lemma {:induction false} NoHex(s: Text, i: nat, n: nat, m: nat)
    requires n <= m && i + m <= |s| && HexNumber(s, i, n) == -1
    ensures HexNumber(s, i, m) == -1
    decreases m
  {
    if n < m {
      NoHex(s, i, n, m - 1);
    }
  }

  lemma {:induction false} HexShift(s: Text, d: nat, i: nat, n: nat, e: nat)
    requires d <= e <= |s| && d + i + n <= e
    ensures HexNumber(s[d..e], i, n) == HexNumber(s, d + i, n)
    decreases n
  {
    if n > 0 {
      HexShift(s, d, i, n - 1, e);
    }
  }

  /** Reading one byte past the token meets the closing quote, which is no hexadecimal digit. */
  lemma HexPastEnd(s: Text, p: nat, e: nat)
    requires e < |s| && s[e] == QUOTE && p + 3 == e
    ensures HexNumber(s, p, 4) == -1
  {}

  /** The escape at p of a token that ends at e. */
  method ReadUnit(src: Text, p: nat, e: nat) returns (u: Unit)
    requires p + 2 <= e < |src| && src[e] == QUOTE && src[p] == BACKSLASH && src[p + 1] == 0x75
    ensures u == UnicodeUnit(src[p..e])
  {
    ghost var s := src[p..e];
    if p + 6 > e + 1 {
      return Bad;
    }
    var cp := ReadHex(src, p + 2);
    if p + 6 == e + 1 {
      HexPastEnd(src, p + 2, e);
    } else {
      HexShift(src, p, 2, 4, e);
    }
    if cp < 0 {
      return Bad;
    }
    if 0xd800 <= cp <= 0xdbff {
      if p + 12 > e + 1 || src[p + 6] != BACKSLASH || src[p + 7] != 0x75 {
        return Bad;
      }
      var lo := ReadHex(src, p + 8);
      if p + 12 == e + 1 {
        HexPastEnd(src, p + 8, e);
      } else {
        HexShift(src, p, 8, 4, e);
      }
      if lo < 0xdc00 || lo > 0xdfff {
        return Bad;
      }
      return Unit(0x1_0000 + (cp - 0xd800) * 0x400 + (lo - 0xdc00), 12);
    } else if 0xdc00 <= cp <= 0xdfff {
      return Bad;
    }
    return Unit(cp, 6);
  }

  /** The text still to be decoded completes what has been written. */
  ghost predicate UnescapeProgress(text: Option<Text>, done: Text, rest: Text) {
    text == Prepend(done, Unescape(rest))
  }

  lemma ProgressStep(text: Option<Text>, done: Text, rest: Text, p: Text, next: Text)
    requires UnescapeProgress(text, done, rest) && Unescape(rest) == Prepend(p, Unescape(next))
    ensures UnescapeProgress(text, done + p, next)
    ensures text.Some? ==> |text.value| >= |done| + |p|
  {
    if Unescape(next).Some? {
      assert done + (p + Unescape(next).value) == done + p + Unescape(next).value;
    }
  }

  /** Appends one byte, or reports that it does not fit. */
  method Put(out: array<byte>, o: nat, c: byte) returns (r: int)
    requires o <= out.Length
    modifies out
    ensures if o + 1 > out.Length then r == -1 else r == o + 1 && out[..r] == old(out[..o]) + [c]
  {
    if o + 1 > out.Length {
      return -1;
    }
    out[o] := c;
    r := o + 1;
    assert out[..r] == old(out[..o]) + [c];
  }

  /** One turn of the loop at source position i: the next position and output length, or a failure. */
  method DecodeOne(src: Text, i: nat, e: nat, out: array<byte>, o: nat, ghost text: Option<Text>) returns (ok: bool, i': nat, o': nat)
    requires i < e < |src| && src[e] == QUOTE && o <= out.Length && UnescapeProgress(text, out[..o], src[i..e])
    modifies out
    ensures ok ==> i < i' <= e && o' <= out.Length && UnescapeProgress(text, out[..o'], src[i'..e])
    ensures !ok ==> text.None? || |text.value| > out.Length
  {
    hide HexNumber, Utf8;
    ghost var done, rest := out[..o], src[i..e];
    i', o' := i, o;
    var c := src[i];
    var r: int;
    if c != BACKSLASH {
      assert rest[1..] == src[i + 1..e];
      ProgressStep(text, done, rest, [c], src[i + 1..e]);
      r := Put(out, o, c);
      i' := i + 1;
    } else {
      if i + 1 >= e {
        return false, i', o';
      }
      if SimpleEscape(src[i + 1]) {
        assert rest[2..] == src[i + 2..e];
        ProgressStep(text, done, rest, [SimpleValue(src[i + 1])], src[i + 2..e]);
        r := Put(out, o, SimpleValue(src[i + 1]));
        i' := i + 2;
      } else if src[i + 1] == 0x75 {
        var u := ReadUnit(src, i, e);
        if u.Bad? {
          return false, i', o';
        }
        assert rest[u.len..] == src[i + u.len..e];
        ProgressStep(text, done, rest, Utf8(u.cp), src[i + u.len..e]);
        r := Utf8Emit(u.cp, out, o);
        i' := i + u.len;
      } else {
        return false, i', o';
      }
    }
    if r < 0 {
      return false, i', o';
    }
    ok, o' := true, r;
  }

  /** hlm_json_string: decodes a string token into out with a terminating NUL. */
  method Decode(doc: Doc, tok: int, out: array<byte>) returns (r: int)
    requires Spanned(doc)
    requires forall i :: 0 <= i < |doc.toks| && doc.toks[i].kind == Str ==> doc.toks[i].end < |doc.src| && doc.src[doc.toks[i].end] == QUOTE
    modifies out
    ensures KindAt(doc.toks, tok) != Str ==> r == -1
    ensures KindAt(doc.toks, tok) == Str ==>
      var text := Unescape(Raw(doc, tok));
      if text.None? || |text.value| + 1 > out.Length then r == -1 else r == |text.value| && out[..r] == text.value && out[r] == 0
  {
    hide Unescape;
    if tok < 0 || tok >= |doc.toks| {
      return -1;
    }
    var t := doc.toks[tok];
    if t.kind != Str {
      return -1;
    }
    ghost var text := Unescape(Raw(doc, tok));
    var i: nat, e, o := t.start, t.end, 0;
    assert out[..0] + [] == [];
    ProgressStart(text, Raw(doc, tok));
    while i < e
      invariant t.start <= i <= e && 0 <= o <= out.Length
      invariant UnescapeProgress(text, out[..o], doc.src[i..e])
    {
      var ok;
      ok, i, o := DecodeOne(doc.src, i, e, out, o, text);
      if !ok {
        return -1;
      }
    }
    ProgressEnd(text, out[..o], doc.src[i..e]);
    if o + 1 > out.Length {
      return -1;
    }
    out[o] := 0;
    assert out[..o] == text.value;
    return o;
  }

  lemma ProgressStart(text: Option<Text>, raw: Text)
    requires text == Unescape(raw)
    ensures UnescapeProgress(text, [], raw)
  {
    if text.Some? {
      assert [] + text.value == text.value;
    }
  }

  lemma ProgressEnd(text: Option<Text>, done: Text, rest: Text)
    requires UnescapeProgress(text, done, rest) && rest == []
    ensures text == Some(done)
  {
    assert done + [] == done;
  }

  /** In the document of any accepted text every string token is followed by its closing quote. */
  lemma QuotesClose(doc: Doc)
    requires WellFormed(doc.src, doc.toks)
    ensures Spanned(doc)
    ensures forall i :: 0 <= i < |doc.toks| && doc.toks[i].kind == Str ==>
              doc.toks[i].end < |doc.src| && doc.src[doc.toks[i].end] == QUOTE && Chars(Raw(doc, i))
  {
    hide ScanString, Shaped, Siblings, Nested, Sized, Chars;
    forall i | 0 <= i < |doc.toks| && doc.toks[i].kind == Str
      ensures doc.toks[i].end < |doc.src| && doc.src[doc.toks[i].end] == QUOTE && Chars(Raw(doc, i))
    {
      assert Labels(doc.src, doc.toks[i]);
      ScannedChars(doc.src, doc.toks[i].start);
    }
  }

  /** Strings of the grammar decode unless an escape names a lone or misplaced surrogate. */
  ghost predicate NoSurrogates(s: Text) {
    forall i :: 0 <= i && i + 6 <= |s| && s[i] == BACKSLASH && s[i + 1] == 0x75 ==> !(0xd800 <= HexNumber(s, i + 2, 4) <= 0xdfff)
  }

  lemma {:induction false} CharsDecode(s: Text)
    requires Chars(s) && NoSurrogates(s)
    ensures Unescape(s).Some?
    decreases |s|
  {
    if |s| > 0 {
      var n := if s[0] != BACKSLASH then 1 else if s[1] == 0x75 then 6 else 2;
      if n == 6 {
        FourHex(s);
      }
      SuffixNoSurrogates(s, n);
      CharsDecode(s[n..]);
    }
  }

  lemma SuffixNoSurrogates(s: Text, n: nat)
    requires NoSurrogates(s) && n <= |s|
    ensures NoSurrogates(s[n..])
  {
    forall i | 0 <= i && i + 6 <= |s[n..]| && s[n..][i] == BACKSLASH && s[n..][i + 1] == 0x75
      ensures !(0xd800 <= HexNumber(s[n..], i + 2, 4) <= 0xdfff)
    {
      HexShift(s, n, i + 2, 4, |s|);
      assert s[n..|s|] == s[n..];
      assert s[n + i] == BACKSLASH && s[n + i + 1] == 0x75;
    }
  }

  lemma FourHex(s: Text)
    requires |s| >= 6 && forall i :: 2 <= i < 6 ==> HexDigit(s[i])
    ensures HexNumber(s, 2, 4) >= 0
  {
    assert HexNumber(s, 2, 1) >= 0;
    assert HexNumber(s, 2, 2) >= 0;
    assert HexNumber(s, 2, 3) >= 0;
  }

  // ---------- escapes of code points ----------

  function LowerHex(d: int): (c: byte)
    requires 0 <= d < 16
    ensures HexVal(c) == d
  {
    if d < 10 then 0x30 + d else 0x61 + d - 10
  }

  /** \uXXXX with lower-case digits, as printf's %04x writes them. */
  function EscapeUnit(v: int): (s: Text)
    requires 0 <= v < 0x1_0000
    ensures |s| == 6
  {
    [BACKSLASH, 0x75, LowerHex(v / 0x1000), LowerHex(v / 0x100 % 16), LowerHex(v / 0x10 % 16), LowerHex(v % 16)]
  }

  lemma EscapeUnitValue(s: Text, i: nat, v: int)
    requires 0 <= v < 0x1_0000 && i + 6 <= |s| && s[i..i + 6] == EscapeUnit(v)
    ensures HexNumber(s, i + 2, 4) == v && s[i] == BACKSLASH && s[i + 1] == 0x75
  {
    var t := s[i..i + 6];
    assert t[0] == s[i] && t[1] == s[i + 1] && t[2] == s[i + 2] && t[3] == s[i + 3] && t[4] == s[i + 4] && t[5] == s[i + 5];
    assert HexNumber(s, i + 2, 0) == 0;
    assert HexNumber(s, i + 2, 1) == v / 0x1000;
    assert HexNumber(s, i + 2, 2) == v / 0x100;
    assert HexNumber(s, i + 2, 3) == v / 0x10;
  }

  /** The escape of a code point, a surrogate pair above 0xffff. */
  function EscapeCodePoint(cp: int): Text
    requires 0 <= cp < 0x11_0000
  {
    if cp < 0x1_0000 then EscapeUnit(cp)
    else EscapeUnit(0xd800 + (cp - 0x1_0000) / 0x400) + EscapeUnit(0xdc00 + (cp - 0x1_0000) % 0x400)
  }

  lemma UnescapeUnit(s: Text, cp: int, len: nat)
    requires |s| >= 2 && s[0] == BACKSLASH && s[1] == 0x75 && UnicodeUnit(s) == Unit(cp, len)
    ensures Unescape(s) == Prepend(Utf8(cp), Unescape(s[len..]))
  {
    hide UnicodeUnit, Utf8;
    assert !SimpleEscape(0x75);
  }

  lemma SingleUnit(s: Text, cp: int)
    requires |s| >= 6 && s[0] == BACKSLASH && s[1] == 0x75 && HexNumber(s, 2, 4) == cp && 0 <= cp < 0x1_0000 && !(0xd800 <= cp <= 0xdfff)
    ensures UnicodeUnit(s) == Unit(cp, 6)
  {
    hide HexNumber;
  }

  lemma PairedUnit(s: Text, cp: int)
    requires |s| >= 12 && s[0] == BACKSLASH && s[1] == 0x75 && s[6] == BACKSLASH && s[7] == 0x75 && 0x1_0000 <= cp < 0x11_0000
    requires HexNumber(s, 2, 4) == 0xd800 + (cp - 0x1_0000) / 0x400 && HexNumber(s, 8, 4) == 0xdc00 + (cp - 0x1_0000) % 0x400
    ensures UnicodeUnit(s) == Unit(cp, 12)
  {
    hide HexNumber;
  }

  /** Every Unicode scalar value written as an escape decodes to its UTF-8 bytes. */
  lemma EscapeDecodes(cp: int, rest: Text)
    requires 0 <= cp < 0x11_0000 && !(0xd800 <= cp <= 0xdfff)
    ensures Unescape(EscapeCodePoint(cp) + rest) == Prepend(Utf8(cp), Unescape(rest))
  {
    if cp < 0x1_0000 {
      SingleDecodes(cp, rest);
    } else {
      PairDecodes(cp, rest);
    }
  }

  lemma SingleDecodes(cp: int, rest: Text)
    requires 0 <= cp < 0x1_0000 && !(0xd800 <= cp <= 0xdfff)
    ensures Unescape(EscapeUnit(cp) + rest) == Prepend(Utf8(cp), Unescape(rest))
  {
    hide HexNumber, Utf8, EscapeUnit, Unescape, UnicodeUnit;
    var s := EscapeUnit(cp) + rest;
    assert s[0..6] == EscapeUnit(cp);
    EscapeUnitValue(s, 0, cp);
    SingleUnit(s, cp);
    UnescapeUnit(s, cp, 6);
    assert s[6..] == rest;
  }

  lemma PairDecodes(cp: int, rest: Text)
    requires 0x1_0000 <= cp < 0x11_0000
    ensures Unescape(EscapeCodePoint(cp) + rest) == Prepend(Utf8(cp), Unescape(rest))
  {
    hide HexNumber, Utf8, EscapeUnit, Unescape, UnicodeUnit;
    var s := EscapeCodePoint(cp) + rest;
    var high, low := 0xd800 + (cp - 0x1_0000) / 0x400, 0xdc00 + (cp - 0x1_0000) % 0x400;
    assert s[0..6] == EscapeUnit(high) && s[6..12] == EscapeUnit(low);
    EscapeUnitValue(s, 0, high);
    EscapeUnitValue(s, 6, low);
    PairedUnit(s, cp);
    UnescapeUnit(s, cp, 12);
    assert s[12..] == rest;
  }

  // ---------- the escapes of section 7 of RFC 8259, one by one ----------

  /** The eight one-character escapes, and what they stand for. */
  lemma EscapeTable(rest: Text)
    ensures Unescape(Ascii("\\\"") + rest) == Prepend([0x22], Unescape(rest))
    ensures Unescape(Ascii("\\\\") + rest) == Prepend([0x5c], Unescape(rest))
    ensures Unescape(Ascii("\\/") + rest) == Prepend([0x2f], Unescape(rest))
    ensures Unescape(Ascii("\\b") + rest) == Prepend([0x08], Unescape(rest))
    ensures Unescape(Ascii("\\f") + rest) == Prepend([0x0c], Unescape(rest))
    ensures Unescape(Ascii("\\n") + rest) == Prepend([0x0a], Unescape(rest))
    ensures Unescape(Ascii("\\r") + rest) == Prepend([0x0d], Unescape(rest))
    ensures Unescape(Ascii("\\t") + rest) == Prepend([0x09], Unescape(rest))
  {
    hide Unescape;
    SimpleDecodes(0x22, 0x22, rest);
    SimpleDecodes(0x5c, 0x5c, rest);
    SimpleDecodes(0x2f, 0x2f, rest);
    SimpleDecodes(0x62, 0x08, rest);
    SimpleDecodes(0x66, 0x0c, rest);
    SimpleDecodes(0x6e, 0x0a, rest);
    SimpleDecodes(0x72, 0x0d, rest);
    SimpleDecodes(0x74, 0x09, rest);
    assert Ascii("\\\"") == [BACKSLASH, 0x22] && Ascii("\\\\") == [BACKSLASH, 0x5c] && Ascii("\\/") == [BACKSLASH, 0x2f];
    assert Ascii("\\b") == [BACKSLASH, 0x62] && Ascii("\\f") == [BACKSLASH, 0x66] && Ascii("\\n") == [BACKSLASH, 0x6e];
    assert Ascii("\\r") == [BACKSLASH, 0x72] && Ascii("\\t") == [BACKSLASH, 0x74];
  }

  lemma SimpleDecodes(c: byte, v: byte, rest: Text)
    requires SimpleEscape(c) && SimpleValue(c) == v
    ensures Unescape([BACKSLASH, c] + rest) == Prepend([v], Unescape(rest))
  {
    assert ([BACKSLASH, c] + rest)[2..] == rest;
  }

  /** Everything but the backslash stands for itself; a backslash at the end or before any other character fails. */
  lemma PlainAndUnknown(c: byte, rest: Text)
    ensures Unescape([]) == Some([])
    ensures c != '\\' as int ==> Unescape([c] + rest) == Prepend([c], Unescape(rest))
    ensures Unescape(Ascii("\\")) == None
    ensures c !in Ascii("\"\\/bfnrtu") ==> Unescape(Ascii("\\") + [c] + rest) == None
  {
    assert Ascii("\\") == [BACKSLASH];
    assert ([c] + rest)[1..] == rest;
    var t := Ascii("\"\\/bfnrtu");
    assert t[0] == 0x22 && t[1] == 0x5c && t[2] == 0x2f && t[3] == 0x62 && t[4] == 0x66 && t[5] == 0x6e && t[6] == 0x72 && t[7] == 0x74 && t[8] == 0x75;
  }

  /** Hexadecimal digits in both cases. */
  lemma HexTable(d: int)
    ensures 0 <= d < 10 ==> HexVal('0' as int + d) == d && LowerHex(d) == '0' as int + d
    ensures 10 <= d < 16 ==> HexVal('a' as int + (d - 10)) == d && HexVal('A' as int + (d - 10)) == d && LowerHex(d) == 'a' as int + (d - 10)
  {}

  /** Four hexadecimal digits, most significant first. */
  lemma FourDigits(s: Text, i: nat)
    requires i + 4 <= |s|
    ensures var a, b, c, d := HexVal(s[i]), HexVal(s[i + 1]), HexVal(s[i + 2]), HexVal(s[i + 3]);
            HexNumber(s, i, 4) == if a < 0 || b < 0 || c < 0 || d < 0 then -1 else 0x1000 * a + 0x100 * b + 0x10 * c + d
  {
    hide HexVal;
    assert HexNumber(s, i, 1) == HexVal(s[i]);
  }

  /** A high surrogate is decoded only together with a low one that follows it, and a low one never alone. */
  lemma LoneSurrogates(s: Text)
    requires |s| >= 6 && s[..2] == Ascii("\\u")
    ensures 0xdc00 <= HexNumber(s, 2, 4) <= 0xdfff ==> Unescape(s) == None
    ensures 0xd800 <= HexNumber(s, 2, 4) <= 0xdbff && !(|s| >= 12 && s[6..8] == Ascii("\\u") && 0xdc00 <= HexNumber(s, 8, 4) <= 0xdfff) ==> Unescape(s) == None
    ensures HexNumber(s, 2, 4) < 0 ==> Unescape(s) == None
  {
    hide HexNumber;
    assert Ascii("\\u") == [BACKSLASH, 0x75];
    assert s[0] == s[..2][0] && s[1] == s[..2][1];
    if |s| >= 12 && s[6] == BACKSLASH && s[7] == 0x75 {
      assert s[6..8] == [BACKSLASH, 0x75];
    }
    assert !SimpleEscape(0x75);
  }

  // ---------- the client's escaper ----------

  function EscapeByte(c: byte): (s: Text)
    ensures |s| >= 1
  {
    if c == QUOTE || c == BACKSLASH then [BACKSLASH, c] else if c < 0x20 then EscapeUnit(c) else [c]
  }

  /** Quotes and backslashes get a backslash, control characters are written in hexadecimal, the rest stands as it is. */
  lemma EscapedByte(c: byte)
    ensures c == '"' as int || c == '\\' as int ==> EscapeByte(c) == Ascii("\\") + [c]
    ensures c < 0x20 ==> EscapeByte(c) == Ascii("\\u00") + [LowerHex(c / 16), LowerHex(c % 16)]
    ensures c != '"' as int && c != '\\' as int && c >= 0x20 ==> EscapeByte(c) == [c]
  {
    assert Ascii("\\") == [0x5c] && Ascii("\\u00") == [0x5c, 0x75, 0x30, 0x30];
  }

  function Escape(s: Text): Text {
    if |s| == 0 then [] else EscapeByte(s[0]) + Escape(s[1..])
  }

  /** snprintf(out + o, ..., "\\u%04x", c) with its NUL. */
  method PutUnit(out: array<byte>, o: nat, c: byte)
    requires o + 6 < out.Length
    modifies out
    ensures out[..o] == old(out[..o]) && out[o..o + 6] == EscapeUnit(c)
  {
    out[o], out[o + 1], out[o + 2] := BACKSLASH, 0x75, LowerHex(c as int / 0x1000);
    out[o + 3], out[o + 4], out[o + 5] := LowerHex(c as int / 0x100 % 16), LowerHex(c / 0x10 % 16), LowerHex(c % 16);
    out[o + 6] := 0;
  }

  /** The switch of json_escape on one character; false when it would not leave room for the NUL. */
  method EscapeInto(out: array<byte>, o: nat, c: byte) returns (ok: bool, o': nat)
    requires o <= out.Length
    modifies out
    ensures ok <==> o + |EscapeByte(c)| < out.Length
    ensures ok ==> o' == o + |EscapeByte(c)| && out[..o'] == old(out[..o]) + EscapeByte(c)
  {
    hide EscapeUnit;
    ghost var done := out[..o];
    o' := o;
    if c == QUOTE || c == BACKSLASH {
      if o + 2 >= out.Length {
        return false, o';
      }
      out[o] := BACKSLASH;
      out[o + 1] := c;
      o' := o + 2;
    } else if c < 0x20 {
      if o + 6 >= out.Length {
        return false, o';
      }
      PutUnit(out, o, c);
      o' := o + 6;
      assert out[..o'] == out[..o] + out[o..o + 6];
    } else {
      if o + 1 >= out.Length {
        return false, o';
      }
      out[o] := c;
      o' := o + 1;
    }
    ok := true;
    assert out[..o'] == done + EscapeByte(c);
  }

  /** json_escape of the client: the escaped bytes and a NUL, or -1 when they do not fit. */
  method JsonEscape(input: Text, out: array<byte>) returns (r: int)
    modifies out
    ensures if |Escape(input)| >= out.Length then r == -1
            else r == |Escape(input)| && out[..r] == Escape(input) && out[r] == 0
  {
    hide EscapeByte;
    var o, i := 0, 0;
    while i < |input|
      invariant 0 <= i <= |input| && 0 <= o <= out.Length
      invariant Escape(input) == out[..o] + Escape(input[i..])
    {
      var c := input[i];
      assert input[i..][1..] == input[i + 1..];
      ghost var done := out[..o];
      assert Escape(input[i..]) == EscapeByte(c) + Escape(input[i + 1..]);
      assert done + (EscapeByte(c) + Escape(input[i + 1..])) == done + EscapeByte(c) + Escape(input[i + 1..]);
      var ok;
      ok, o := EscapeInto(out, o, c);
      if !ok {
        return -1;
      }
      i := i + 1;
    }
    if o >= out.Length {
      return -1;
    }
    out[o] := 0;
    assert out[..o] == Escape(input);
    r := o;
  }

  lemma {:induction false} EscapeChars(s: Text)
    ensures Chars(Escape(s))
  {
    if |s| > 0 {
      EscapeChars(s[1..]);
      var e, c := Escape(s), s[0];
      assert e[|EscapeByte(c)|..] == Escape(s[1..]);
      if c < 0x20 {
        assert forall i :: 2 <= i < 6 ==> e[i] == EscapeUnit(c)[i];
      }
    }
  }

  lemma {:induction false} UnescapeEscape(s: Text)
    ensures Unescape(Escape(s)) == Some(s)
  {
    if |s| > 0 {
      var c, rest := s[0], Escape(s[1..]);
      UnescapeEscape(s[1..]);
      assert [c] + s[1..] == s;
      if c < 0x20 && c != QUOTE && c != BACKSLASH {
        EscapeDecodes(c, rest);
      } else {
        assert Escape(s)[|EscapeByte(c)|..] == rest;
      }
    }
  }

  /** Quoting an escaped byte string, tokenizing it and decoding the token gives the bytes back. */
  lemma EscapeRoundTrip(s: Text, max: int)
    requires max >= 1 && |Escape(s)| + 2 <= INT_MAX
    ensures var src := [QUOTE] + Escape(s) + [QUOTE];
            var r := Tokenize(src, max);
            && r.Running? && r.m.toks == [Tok(Str, 1, 1 + |Escape(s)|, 0, -1)]
            && Unescape(Raw(Doc(src, r.m.toks), 0)) == Some(s)
  {
    hide Tokenize, Escape, Unescape, Chars;
    var e := Escape(s);
    var src := [QUOTE] + e + [QUOTE];
    EscapeChars(s);
    UnescapeEscape(s);
    assert Document([], Quoted(e), []) == src;
    GrammarAccepted([], Quoted(e), [], max);
    assert src[1..1 + |e|] == e;
  }
}
