/** What the three error codes of the tokenizer say: no room for the tokens, not JSON, or cut short. */
module JsonLimits {
  import opened Radix
  import opened JsonTokenizer

  // ---------- characters ----------

  /** The structural characters, blanks and escapes of sections 2 and 7 of RFC 8259. */
  lemma Characters(c: byte)
    ensures QUOTE == '"' as int && BACKSLASH == '\\' as int && COLON == ':' as int && COMMA == ',' as int
    ensures OPEN_BRACE == '{' as int && CLOSE_BRACE == '}' as int && OPEN_BRACKET == '[' as int && CLOSE_BRACKET == ']' as int
    ensures Space(c) <==> c == ' ' as int || c == '\t' as int || c == '\n' as int || c == '\r' as int
    ensures HexDigit(c) <==> '0' as int <= c <= '9' as int || 'a' as int <= c <= 'f' as int || 'A' as int <= c <= 'F' as int
    ensures Delimiter(c) <==> Space(c) || c == ',' as int || c == ':' as int || c == '}' as int || c == ']' as int
  {}

  // ---------- room for tokens ----------

  /** A step makes at most one token, and the size of the array matters only when there is no room for it. */
  lemma StepRoom(src: Text, big: int, max: int, m: Machine)
    requires m.pos < |src| && Step(src, big, m).Running?
    ensures var n := Step(src, big, m).m;
            && |m.toks| <= |n.toks| <= |m.toks| + 1
            && Step(src, max, m) == if |n.toks| > |m.toks| && |m.toks| >= max then Failed(-1) else Running(n)
  {
    hide ScanString, ScanPrimitive;
  }

  lemma {:induction false} RunRoom(src: Text, big: int, max: int, m: Machine)
    requires Run(src, big, m).Running?
    ensures var r := Run(src, big, m).m;
            && |m.toks| <= |r.toks|
            && Run(src, max, m) == if |r.toks| > max && |r.toks| > |m.toks| then Failed(-1) else Running(r)
    decreases |src| - m.pos
  {
    hide Step;
    if m.pos < |src| {
      StepRoom(src, big, max, m);
      RunRoom(src, big, max, Step(src, big, m).m);
    }
  }

  /** A text that is accepted with room enough is accepted with the same tokens for any array that holds them, and any
      smaller array is reported as too small. */
  lemma RoomDecides(src: Text, big: int, max: int)
    requires Tokenize(src, big).Running?
    ensures Tokenize(src, max) == if |Tokenize(src, big).m.toks| <= max then Tokenize(src, big) else Failed(-1)
  {
    hide Run;
    RunRoom(src, big, max, START);
  }

  lemma {:induction false} StringCodes(src: Text, p: nat)
    ensures ScanString(src, p) != Fail(-1)
    decreases |src| - p
  {
    if p + 1 < |src| && src[p] == BACKSLASH {
      if src[p + 1] == 0x75 {
        HexCodes(src, p + 2, 4);
        StringCodes(src, p + 6);
      } else {
        StringCodes(src, p + 2);
      }
    } else if p < |src| {
      StringCodes(src, p + 1);
    }
  }

  lemma {:induction false} HexCodes(src: Text, p: nat, count: nat)
    ensures ScanHex(src, p, count) != Fail(-1)
    decreases count
  {
    if count > 0 {
      HexCodes(src, p + 1, count - 1);
    }
  }

  lemma {:induction false} PrimitiveCodes(src: Text, p: nat)
    ensures ScanPrimitive(src, p).Fail? ==> ScanPrimitive(src, p) == Fail(-2)
    decreases |src| - p
  {
    if p < |src| {
      PrimitiveCodes(src, p + 1);
    }
  }

  lemma StepCodes(src: Text, max: int, m: Machine)
    requires 0 <= m.pos < |src| && |m.toks| <= m.pos && |src| <= max
    ensures var r := Step(src, max, m); r != Failed(-1) && (r.Running? ==> |r.m.toks| <= r.m.pos)
  {
    StringCodes(src, m.pos + 1);
    PrimitiveCodes(src, m.pos);
    hide ScanString, ScanPrimitive;
  }

  lemma {:induction false} RunCodes(src: Text, max: int, m: Machine)
    requires 0 <= m.pos && |m.toks| <= m.pos && |src| <= max
    ensures Run(src, max, m) != Failed(-1)
    decreases |src| - m.pos
  {
    hide Step;
    if m.pos < |src| {
      StepCodes(src, max, m);
      if Step(src, max, m).Running? {
        RunCodes(src, max, Step(src, max, m).m);
      }
    }
  }

  /** Nothing but blanks, colons and commas. */
  ghost predicate NoValue(src: Text) {
    forall i :: 0 <= i < |src| ==> Space(src[i]) || src[i] == COLON || src[i] == COMMA
  }

  lemma {:induction false} SilentRun(src: Text, max: int, m: Machine)
    requires 0 <= m.pos <= |src| && |m.toks| == 0 && NoValue(src)
    ensures Run(src, max, m).Running? && |Run(src, max, m).m.toks| == 0 && Run(src, max, m).m.depth == m.depth
    decreases |src| - m.pos
  {
    hide Space, Delimiter;
    if m.pos < |src| {
      var c := src[m.pos];
      assert Space(c) || c == COLON || c == COMMA;
      SpaceStep(src, max, m);
      hide Step;
      SilentRun(src, max, Step(src, max, m).m);
    }
  }

  lemma SpaceStep(src: Text, max: int, m: Machine)
    requires 0 <= m.pos < |src| && (Space(src[m.pos]) || src[m.pos] == COLON || src[m.pos] == COMMA)
    ensures var r := Step(src, max, m); r.Running? && r.m.pos == m.pos + 1 && r.m.toks == m.toks && r.m.depth == m.depth
  {}

  /** Positions are 32-bit integers: a text that does not fit them is refused, whatever it holds, and so is one without a value. */
  lemma NothingToTokenize(src: Text, max: int)
    requires |src| > 0x7fff_ffff || NoValue(src)
    ensures Tokenize(src, max) == Failed(-2)
  {
    if |src| <= 0x7fff_ffff {
      SilentRun(src, max, START);
    }
  }

  /** A token for every character is always enough. */
  lemma RoomEnough(src: Text, max: int)
    requires |src| <= max
    ensures Tokenize(src, max) != Failed(-1)
  {
    hide Run;
    RunCodes(src, max, START);
  }

  // ---------- truncated texts ----------

  lemma {:induction false} StringPrefix(src: Text, n: nat, p: nat)
    requires p <= n <= |src| && ScanString(src, p).Stop?
    ensures ScanString(src[..n], p) == if ScanString(src, p).at < n then ScanString(src, p) else Fail(-3)
    decreases n - p
  {
    if p < n && src[p] != QUOTE {
      if src[p] == BACKSLASH && p + 1 < n && src[p + 1] == 0x75 {
        HexPrefix(src, n, p + 2, 4);
        if p + 6 <= n {
          StringPrefix(src, n, p + 6);
        }
      } else if src[p] == BACKSLASH && p + 2 <= n {
        StringPrefix(src, n, p + 2);
      } else if src[p] != BACKSLASH {
        StringPrefix(src, n, p + 1);
      }
    }
  }

  lemma {:induction false} HexPrefix(src: Text, n: nat, p: nat, count: nat)
    requires p <= n <= |src| && ScanHex(src, p, count).Stop?
    ensures ScanHex(src, p, count) == Stop(p + count)
    ensures ScanHex(src[..n], p, count) == if p + count <= n then Stop(p + count) else Fail(-3)
    decreases count
  {
    if count > 0 && p < n {
      HexPrefix(src, n, p + 1, count - 1);
    } else if count > 0 {
      HexStop(src, p, count);
    }
  }

  lemma {:induction false} HexStop(src: Text, p: nat, count: nat)
    requires ScanHex(src, p, count).Stop?
    ensures ScanHex(src, p, count) == Stop(p + count)
    decreases count
  {
    if count > 0 {
      HexStop(src, p + 1, count - 1);
    }
  }

  lemma {:induction false} PrimitivePrefix(src: Text, n: nat, p: nat)
    requires p <= n <= |src| && ScanPrimitive(src, p).Stop?
    ensures ScanPrimitive(src[..n], p) == if ScanPrimitive(src, p).at < n then ScanPrimitive(src, p) else Stop(n)
    decreases n - p
  {
    if p < n && !Delimiter(src[p]) {
      PrimitivePrefix(src, n, p + 1);
    }
  }

  /** A step that stays inside a prefix is the same there; one that leaves it is a string or a primitive that is cut. */
  lemma StepPrefix(src: Text, n: nat, max: int, m: Machine)
    requires 0 <= m.pos < n <= |src| && Step(src, max, m).Running?
    ensures var k, c := Step(src, max, m).m, Step(src[..n], max, m);
            if k.pos <= n then c == Running(k) else c == Failed(-3) || (c.Running? && c.m.pos == n && |c.m.toks| > 0)
  {
    hide ScanString, ScanPrimitive;
    var c := src[m.pos];
    assert src[..n][m.pos] == c;
    if c == QUOTE {
      StringPrefix(src, n, m.pos + 1);
    } else if !(c == OPEN_BRACE || c == OPEN_BRACKET || c == CLOSE_BRACE || c == CLOSE_BRACKET || Space(c) || c == COLON || c == COMMA) {
      PrimitivePrefix(src, n, m.pos);
    }
  }

  lemma {:induction false} RunPrefix(src: Text, n: nat, max: int, m: Machine)
    requires 0 <= m.pos <= n <= |src| && Run(src, max, m).Running?
    ensures var c := Run(src[..n], max, m); c == Failed(-3) || c.Running?
    decreases |src| - m.pos
  {
    hide Step;
    if m.pos < n {
      StepPrefix(src, n, max, m);
      var k := Step(src, max, m).m;
      if k.pos <= n {
        RunPrefix(src, n, max, k);
      }
    }
  }

  lemma StepSilent(src: Text, max: int, m: Machine)
    requires 0 <= m.pos < |src| && Step(src, max, m).Running?
    ensures |Step(src, max, m).m.toks| == 0 <==> |m.toks| == 0 && (Space(src[m.pos]) || src[m.pos] == COLON || src[m.pos] == COMMA)
    ensures |Step(src, max, m).m.toks| == 0 ==> Step(src, max, m).m.pos == m.pos + 1
  {
    hide ScanString, ScanPrimitive;
  }

  lemma {:induction false} RunSilent(src: Text, max: int, m: Machine)
    requires 0 <= m.pos && Run(src, max, m).Running? && |Run(src, max, m).m.toks| == 0
    ensures |m.toks| == 0 && forall i :: m.pos <= i < |src| ==> Space(src[i]) || src[i] == COLON || src[i] == COMMA
    decreases |src| - m.pos
  {
    hide Step;
    if m.pos < |src| {
      RunSilent(src, max, Step(src, max, m).m);
      StepSilent(src, max, m);
    }
  }

  /** An accepted text that is cut short is never called invalid: what is left is accepted, or incomplete, or holds no
      value at all. */
  lemma TruncatedIsPart(src: Text, n: nat, max: int)
    requires n <= |src| && Tokenize(src, max).Running?
    ensures var c := Tokenize(src[..n], max); c.Running? || c == Failed(-3) || (c == Failed(-2) && NoValue(src[..n]))
  {
    hide Run, Space;
    RunPrefix(src, n, max, START);
    var c := Run(src[..n], max, START);
    if c.Running? && |c.m.toks| == 0 {
      RunSilent(src[..n], max, START);
    }
  }

  // ---------- members ----------

  /** Numbers and literals never stand directly in an object, only in arrays, after keys, or alone. */
  ghost predicate NoBareMember(toks: seq<Tok>) {
    forall j :: 0 <= j < |toks| && toks[j].kind == Primitive ==> KindAt(toks, toks[j].parent) != Object
  }

  lemma StepMembers(src: Text, max: int, m: Machine)
    requires 0 <= m.pos < |src| && Linked(m.toks) && -1 <= m.parent < |m.toks| && NoBareMember(m.toks) && Step(src, max, m).Running?
    ensures var n := Step(src, max, m).m; Linked(n.toks) && -1 <= n.parent < |n.toks| && NoBareMember(n.toks)
  {
    hide ScanString, ScanPrimitive;
  }

  lemma {:induction false} RunMembers(src: Text, max: int, m: Machine)
    requires 0 <= m.pos && -1 <= m.parent < |m.toks| && Linked(m.toks) && NoBareMember(m.toks) && Run(src, max, m).Running?
    ensures NoBareMember(Run(src, max, m).m.toks)
    decreases |src| - m.pos
  {
    hide Step;
    if m.pos < |src| {
      StepMembers(src, max, m);
      RunMembers(src, max, Step(src, max, m).m);
    }
  }

  lemma AcceptedMembers(src: Text, max: int)
    requires Tokenize(src, max).Running?
    ensures NoBareMember(Tokenize(src, max).m.toks)
  {
    hide Run;
    RunMembers(src, max, START);
  }
}
