/** Texts the tokenizer calls incomplete: exactly those that some continuation makes acceptable. */
module JsonCompletion {
  import opened Radix
  import opened JsonTokenizer
  import opened JsonStructure
  import opened JsonLimits

  // ---------- a longer text ----------

  lemma {:induction false} HexLonger(src: Text, t: Text, p: nat, count: nat)
    requires ScanHex(src, p, count) != Fail(-3)
    ensures ScanHex(src + t, p, count) == ScanHex(src, p, count)
    ensures ScanHex(src, p, count).Stop? && count > 0 ==> p + count <= |src|
    decreases count
  {
    if count > 0 && HexDigit(src[p]) {
      HexLonger(src, t, p + 1, count - 1);
    }
  }

  lemma {:induction false} StringLonger(src: Text, t: Text, p: nat)
    requires ScanString(src, p).Stop?
    ensures ScanString(src + t, p) == ScanString(src, p)
    decreases |src| - p
  {
    if src[p] == BACKSLASH {
      if src[p + 1] == 0x75 {
        HexLonger(src, t, p + 2, 4);
        StringLonger(src, t, p + 6);
      } else {
        StringLonger(src, t, p + 2);
      }
    } else if src[p] != QUOTE {
      StringLonger(src, t, p + 1);
    }
  }

  /** A primitive ends where it did, unless it ended with the text and goes on. */
  lemma {:induction false} PrimitiveLonger(src: Text, t: Text, p: nat)
    requires p <= |src| && ScanPrimitive(src, p).Stop? && (ScanPrimitive(src, p).at < |src| || (|t| > 0 && Delimiter(t[0])))
    ensures ScanPrimitive(src + t, p) == ScanPrimitive(src, p)
    decreases |src| - p
  {
    hide Delimiter;
    if p < |src| && !Delimiter(src[p]) {
      PrimitiveLonger(src, t, p + 1);
    }
  }

  lemma StepLonger(src: Text, t: Text, max: int, m: Machine)
    requires 0 <= m.pos < |src| && Step(src, max, m).Running? && (Step(src, max, m).m.pos < |src| || (|t| > 0 && Delimiter(t[0])))
    ensures Step(src + t, max, m) == Step(src, max, m)
  {
    hide ScanString, ScanPrimitive, Delimiter;
    var c := src[m.pos];
    assert (src + t)[m.pos] == c;
    if c == QUOTE {
      StringLonger(src, t, m.pos + 1);
    } else if !(c == OPEN_BRACE || c == OPEN_BRACKET || c == CLOSE_BRACE || c == CLOSE_BRACKET || Space(c) || c == COLON || c == COMMA) {
      PrimitiveLonger(src, t, m.pos);
    }
  }

  /** After a delimiter the run goes on from where it stood at the end of the text. */
  lemma {:induction false} RunLonger(src: Text, t: Text, max: int, m: Machine)
    requires 0 <= m.pos <= |src| && Run(src, max, m).Running? && |t| > 0 && Delimiter(t[0])
    ensures Run(src + t, max, m) == Run(src + t, max, Run(src, max, m).m)
    decreases |src| - m.pos
  {
    hide Step, Delimiter;
    if m.pos < |src| {
      StepLonger(src, t, max, m);
      var n := Step(src, max, m).m;
      if n.pos <= |src| {
        RunLonger(src, t, max, n);
      }
    }
  }

  lemma LabelsLonger(src: Text, t: Text, k: Tok)
    requires Labels(src, k) && (k.kind == Primitive && k.end == |src| ==> |t| > 0 && Delimiter(t[0]))
    ensures Labels(src + t, k)
  {
    hide ScanString, ScanPrimitive, Delimiter;
    if k.kind == Str {
      StringLonger(src, t, k.start);
    } else if k.kind == Primitive {
      PrimitiveLonger(src, t, k.start);
    }
  }

  lemma InvLonger(src: Text, t: Text, m: Machine)
    requires Inv(src, m) && (m.pos < |src| || (|t| > 0 && Delimiter(t[0])))
    ensures Inv(src + t, m)
  {
    hide Labels, Siblings, Nested, Sized, Shaped, Chained, Delimiter, MayHold;
    forall i | 0 <= i < |m.toks|
      ensures Labels(src + t, m.toks[i])
    {
      assert Labels(src, m.toks[i]);
      if m.toks[i].kind == Primitive && m.toks[i].end == |src| {
        assert m.pos >= |src|;
      }
      LabelsLonger(src, t, m.toks[i]);
    }
  }

  // ---------- finishing a string ----------

  /** The missing digits of an escape, as zeros. */
  lemma {:induction false} FinishHex(src: Text, p: nat, count: nat) returns (zeros: Text)
    requires p <= |src| && ScanHex(src, p, count) == Fail(-3)
    ensures |zeros| <= count && p + count == |src| + |zeros|
    ensures forall t :: ScanHex(src + zeros + t, p, count) == Stop(p + count)
    decreases count
  {
    if p < |src| {
      zeros := FinishHex(src, p + 1, count - 1);
      forall t
        ensures ScanHex(src + zeros + t, p, count) == Stop(p + count)
      {
        assert (src + zeros + t)[p] == src[p];
      }
    } else {
      zeros := seq(count, _ => 0x30);
      forall t
        ensures ScanHex(src + zeros + t, p, count) == Stop(p + count)
      {
        AllDigits(src + zeros + t, p, count);
      }
    }
  }

  lemma {:induction false} AllDigits(s: Text, p: nat, count: nat)
    requires p + count <= |s| && forall i :: p <= i < p + count ==> HexDigit(s[i])
    ensures ScanHex(s, p, count) == Stop(p + count)
    decreases count
  {
    if count > 0 {
      AllDigits(s, p + 1, count - 1);
    }
  }

  /** At most six characters end any string that was cut off: the rest of an escape and a quote. */
  lemma {:induction false} FinishString(src: Text, p: nat) returns (t: Text)
    requires p <= |src| && ScanString(src, p) == Fail(-3)
    ensures 0 < |t| <= 6 && ScanString(src + t, p) == Stop(|src| + |t| - 1)
    decreases |src| - p
  {
    if p == |src| {
      t := [QUOTE];
    } else if src[p] == BACKSLASH {
      if p + 1 == |src| {
        t := [BACKSLASH, QUOTE];
        assert ScanString(src + t, p + 2) == Stop(p + 2);
      } else if src[p + 1] == 0x75 && ScanHex(src, p + 2, 4).Fail? {
        var zeros := FinishHex(src, p + 2, 4);
        t := zeros + [QUOTE];
        assert src + t == src + zeros + [QUOTE];
        assert ScanString(src + t, p + 6) == Stop(p + 6);
      } else {
        var n := if src[p + 1] == 0x75 then 6 else 2;
        if n == 6 {
          HexStop(src, p + 2, 4);
          HexFits(src, p + 2, 4);
        }
        t := FinishString(src, p + n);
        if n == 6 {
          HexLonger(src, t, p + 2, 4);
        }
      }
    } else {
      t := FinishString(src, p + 1);
    }
  }

  lemma {:induction false} HexFits(src: Text, p: nat, count: nat)
    requires p <= |src| && ScanHex(src, p, count).Stop?
    ensures p + count <= |src|
    decreases count
  {
    if count > 0 {
      HexFits(src, p + 1, count - 1);
    }
  }

  // ---------- closing what is open ----------

  /** The bracket that closes the innermost open container. */
  lemma CloserStep(src: Text, max: int, m: Machine) returns (c: byte, n: Machine)
    requires Inv(src, m) && m.pos == |src| && m.depth > 0
    ensures Delimiter(c) && Step(src + [c], max, m) == Running(n) && Inv(src + [c], n)
    ensures n.pos == |src| + 1 && n.depth == m.depth - 1 && |n.toks| == |m.toks| > 0
    ensures forall t :: Step(src + [c] + t, max, m) == Running(n)
  {
    var p := PopKey(m.toks, m.parent);
    OpenParent(src, m);
    c := if m.toks[p].kind == Object then CLOSE_BRACE else CLOSE_BRACKET;
    InvLonger(src, [c], m);
    StepInv(src + [c], max, m);
    hide Inv;
    n := Step(src + [c], max, m).m;
    forall t
      ensures Step(src + [c] + t, max, m) == Running(n)
    {
      assert (src + [c] + t)[m.pos] == c;
    }
  }

  lemma OpenParent(src: Text, m: Machine)
    requires Inv(src, m) && m.depth > 0
    ensures var p := PopKey(m.toks, m.parent); 0 <= p < |m.toks| && Container(m.toks[p].kind) && m.toks[p].end == -1
  {
    hide Spans, Labeled, Siblings, Nested, Sized;
    PopKeeps(m.toks, m.parent);
    var p := PopKey(m.toks, m.parent);
    assert OnChain(m.toks, p, p);
  }

  /** One bracket for every open container. */
  lemma {:induction false} Closers(src: Text, max: int, m: Machine) returns (t: Text)
    requires Inv(src, m) && m.pos == |src| && m.depth > 0
    ensures |t| == m.depth && Delimiter(t[0])
    ensures var r := Run(src + t, max, m); r.Running? && r.m.depth == 0 && |r.m.toks| > 0
    decreases m.depth
  {
    hide Inv, Delimiter, Step;
    var c, n := CloserStep(src, max, m);
    if n.depth == 0 {
      t := [c];
    } else {
      var rest := Closers(src + [c], max, n);
      t := [c] + rest;
      assert src + t == src + [c] + rest;
    }
  }

  // ---------- the theorem ----------

  /** A run that ends early stops at a string that is cut off. */
  lemma {:induction false} CutString(src: Text, max: int, m: Machine) returns (n: Machine)
    requires Inv(src, m) && Run(src, max, m) == Failed(-3)
    ensures Inv(src, n) && n.pos < |src| && src[n.pos] == QUOTE && |n.toks| < max && ScanString(src, n.pos + 1) == Fail(-3)
    ensures forall t :: Run(src + t, max, m) == Run(src + t, max, n)
    decreases |src| - m.pos
  {
    PositionInside(src, m);
    hide Inv, ScanString, ScanPrimitive;
    if Step(src, max, m).Failed? {
      n := m;
      FailedString(src, max, m);
    } else {
      StepInv(src, max, m);
      var k := Step(src, max, m).m;
      n := CutString(src, max, k);
      assert k.pos < |src|;
      hide Step;
      forall t
        ensures Run(src + t, max, m) == Run(src + t, max, n)
      {
        PositionStart(src, m);
        StepLonger(src, t, max, m);
      }
    }
  }

  lemma PositionStart(src: Text, m: Machine)
    requires Inv(src, m)
    ensures m.pos >= 0
  {}

  lemma FailedString(src: Text, max: int, m: Machine)
    requires 0 <= m.pos < |src| && Step(src, max, m) == Failed(-3)
    ensures src[m.pos] == QUOTE && |m.toks| < max && ScanString(src, m.pos + 1) == Fail(-3)
  {
    PrimitiveCodes(src, m.pos);
    hide ScanString, ScanPrimitive;
  }

  /** The rest of a string that was cut off, and the brackets that are still to come. */
  lemma CompleteString(src: Text, max: int, m: Machine) returns (t: Text)
    requires Inv(src, m) && m.pos < |src| && src[m.pos] == QUOTE && |m.toks| < max && ScanString(src, m.pos + 1) == Fail(-3)
    ensures 0 < |t| <= 6 + max
    ensures var r := Run(src + t, max, m); r.Running? && r.m.depth == 0 && |r.m.toks| > 0
  {
    hide Inv, Step, ScanString, Delimiter, Run;
    var end, n := EndString(src, max, m);
    var whole := src + end;
    if n.depth == 0 {
      t := end;
      LastStep(whole, [], max, m, n);
      assert whole + [] == whole;
    } else {
      var rest := Closers(whole, max, n);
      LastStep(whole, rest, max, m, n);
      t := end + rest;
      assert src + t == whole + rest;
    }
  }

  lemma EndString(src: Text, max: int, m: Machine) returns (end: Text, n: Machine)
    requires Inv(src, m) && m.pos < |src| && src[m.pos] == QUOTE && |m.toks| < max && ScanString(src, m.pos + 1) == Fail(-3)
    ensures 0 < |end| <= 6 && 0 <= m.pos < |src + end| && Step(src + end, max, m) == Running(n) && Inv(src + end, n)
    ensures n.pos == |src + end| && 0 <= n.depth <= |n.toks| <= max && |n.toks| > 0
  {
    PositionStart(src, m);
    hide Inv, Step, ScanString, Delimiter, Run;
    end := FinishString(src, m.pos + 1);
    var whole := src + end;
    assert whole[m.pos] == QUOTE;
    InvLonger(src, end, m);
    n := StringEnds(whole, max, m);
    DepthBound(whole, n);
  }

  lemma LastStep(whole: Text, rest: Text, max: int, m: Machine, n: Machine)
    requires 0 <= m.pos < |whole| && Step(whole, max, m) == Running(n) && n.pos == |whole| && (rest == [] || Delimiter(rest[0]))
    ensures Run(whole + rest, max, m) == if rest == [] then Running(n) else Run(whole + rest, max, n)
  {
    hide Step, Delimiter;
    if rest == [] {
      assert whole + rest == whole;
      assert Run(whole, max, n) == Running(n);
    } else {
      StepLonger(whole, rest, max, m);
    }
  }

  /** A string that ends with the text. */
  lemma StringEnds(whole: Text, max: int, m: Machine) returns (n: Machine)
    requires Inv(whole, m) && 0 <= m.pos < |whole| && whole[m.pos] == QUOTE && |m.toks| < max
    requires ScanString(whole, m.pos + 1) == Stop(|whole| - 1)
    ensures Step(whole, max, m) == Running(n) && Inv(whole, n) && n.pos == |whole| && n.depth == m.depth && 0 < |n.toks| <= max
  {
    StepInv(whole, max, m);
    hide Inv, ScanString;
    n := Step(whole, max, m).m;
  }

  lemma DepthBound(src: Text, m: Machine)
    requires Inv(src, m)
    ensures 0 <= m.depth <= |m.toks|
  {
    CountBound(m.toks, m.parent);
  }

  lemma {:induction false} CountBound(toks: seq<Tok>, p: int)
    requires Linked(toks) && -1 <= p < |toks|
    ensures OpenCount(toks, p) <= p + 1
    decreases p + 1
  {
    if p >= 0 {
      CountBound(toks, toks[p].parent);
    }
  }

  /** Every incomplete text has a continuation, no longer than the rest of an escape, a quote and a bracket for each open
      container, that makes it acceptable with the same tokens' room. */
  lemma Completes(src: Text, max: int) returns (t: Text)
    requires Tokenize(src, max) == Failed(-3)
    ensures 0 < |t| <= 6 + max && (|src| + |t| <= INT_MAX ==> Tokenize(src + t, max).Running?)
  {
    hide Inv, Delimiter, Step, Run;
    StartInv(src);
    RunInv(src, max, START);
    RunCount(src, max, START);
    if Run(src, max, START).Running? {
      var m := Run(src, max, START).m;
      DepthBound(src, m);
      t := Closers(src, max, m);
      RunLonger(src, t, max, START);
    } else {
      var m := CutString(src, max, START);
      t := CompleteString(src, max, m);
    }
  }

  /** The code for incomplete texts says exactly that: the text is not accepted as it stands, holds something, and some
      continuation is accepted. */
  lemma IncompleteExact(src: Text, max: int)
    requires |src| + 6 + max <= INT_MAX
    ensures Tokenize(src, max) == Failed(-3) <==>
              !Tokenize(src, max).Running? && !NoValue(src) && exists t: Text :: Tokenize(src + t, max).Running?
  {
    hide Run, NoValue;
    if Tokenize(src, max) == Failed(-3) {
      var t := Completes(src, max);
      assert Tokenize(src + t, max).Running?;
      if NoValue(src) {
        SilentRun(src, max, START);
      }
    } else if !Tokenize(src, max).Running? && !NoValue(src) {
      forall t: Text
        ensures !Tokenize(src + t, max).Running?
      {
        assert (src + t)[..|src|] == src;
        if Tokenize(src + t, max).Running? {
          TruncatedIsPart(src + t, |src|, max);
        }
      }
    }
  }
}
