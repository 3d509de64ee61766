/** The shape of the tokens of every text the tokenizer accepts, well-formed JSON or not. */
module JsonStructure {
  import opened JsonTokenizer

  predicate Container(k: Kind) {
    k == Object || k == Array
  }

  /** Parents are containers, or keys of objects. */
  ghost predicate MayHold(toks: seq<Tok>, p: int) {
    0 <= p < |toks| && (Container(toks[p].kind) || (toks[p].kind == Str && KindAt(toks, toks[p].parent) == Object))
  }

  ghost predicate Shaped(toks: seq<Tok>) {
    && Linked(toks)
    && forall i :: 0 <= i < |toks| ==> toks[i].kind != Undefined && (toks[i].parent >= 0 ==> MayHold(toks, toks[i].parent))
  }

  /** Token i is p or one of its ancestors. */
  ghost predicate OnChain(toks: seq<Tok>, p: int, i: int)
    requires Linked(toks) && p < |toks|
    decreases p + 1
  {
    p >= 0 && (i == p || OnChain(toks, toks[p].parent, i))
  }

  /** Containers among p and its ancestors. */
  ghost function OpenCount(toks: seq<Tok>, p: int): (n: nat)
    requires Linked(toks) && p < |toks|
    decreases p + 1
  {
    if p < 0 then 0 else (if Container(toks[p].kind) then 1 else 0) + OpenCount(toks, toks[p].parent)
  }

  /** Tokens among the first n whose parent is i. */
  ghost function Children(toks: seq<Tok>, i: int, n: nat): nat
    requires n <= |toks|
  {
    if n == 0 then 0 else Children(toks, i, n - 1) + (if toks[n - 1].parent == i then 1 else 0)
  }

  /** The container a token lies in: its parent, or the object of its key. */
  ghost function Owner(toks: seq<Tok>, i: int): int
    requires 0 <= i < |toks|
  {
    PopKey(toks, toks[i].parent)
  }

  // ---------- the invariant ----------

  /** The open containers are the current parent and its ancestors. */
  ghost predicate Chained(m: Machine) {
    && Linked(m.toks) && m.parent < |m.toks|
    && (forall i :: 0 <= i < |m.toks| && Container(m.toks[i].kind) ==> (m.toks[i].end == -1 <==> OnChain(m.toks, m.parent, i)))
    && m.depth == OpenCount(m.toks, m.parent)
  }

  ghost predicate Spans(m: Machine) {
    forall i :: 0 <= i < |m.toks| ==>
      var t := m.toks[i];
      && 0 <= t.start <= m.pos
      && (if Container(t.kind) && t.end == -1 then t.start < m.pos else t.start <= t.end <= m.pos)
  }

  /** What a token's span says about the text. */
  ghost predicate Labels(src: Text, t: Tok) {
    && (t.kind == Object ==> 0 <= t.start < |src| && src[t.start] == OPEN_BRACE)
    && (t.kind == Array ==> 0 <= t.start < |src| && src[t.start] == OPEN_BRACKET)
    && (t.kind == Object && t.end != -1 ==> 0 < t.end <= |src| && src[t.end - 1] == CLOSE_BRACE)
    && (t.kind == Array && t.end != -1 ==> 0 < t.end <= |src| && src[t.end - 1] == CLOSE_BRACKET)
    && (t.kind == Str ==> 0 < t.start <= t.end < |src| && src[t.start - 1] == QUOTE && ScanString(src, t.start) == Stop(t.end))
    && (t.kind == Primitive ==> 0 <= t.start < t.end <= |src| && ScanPrimitive(src, t.start) == Stop(t.end))
  }

  ghost predicate Labeled(src: Text, toks: seq<Tok>) {
    forall i :: 0 <= i < |toks| ==> Labels(src, toks[i])
  }

  /** Tokens under one parent follow one another. */
  ghost predicate Siblings(toks: seq<Tok>) {
    forall i, j :: 0 <= i < j < |toks| && toks[i].parent == toks[j].parent ==> toks[i].end != -1 && toks[i].end <= toks[j].start
  }

  /** Spans lie strictly inside the container they belong to. */
  ghost predicate Nested(toks: seq<Tok>) {
    forall j :: 0 <= j < |toks| && 0 <= Owner(toks, j) < |toks| ==>
      var o := toks[Owner(toks, j)];
      o.start < toks[j].start && (o.end != -1 ==> toks[j].end != -1 && toks[j].end < o.end)
  }

  ghost predicate Sized(toks: seq<Tok>) {
    forall i :: 0 <= i < |toks| && Container(toks[i].kind) ==> toks[i].size == Children(toks, i, |toks|)
  }

  ghost predicate Inv(src: Text, m: Machine) {
    && m.pos <= |src| && -1 <= m.parent < |m.toks| && (m.parent >= 0 ==> MayHold(m.toks, m.parent))
    && Shaped(m.toks) && Chained(m) && Spans(m) && Labeled(src, m.toks)
    && Siblings(m.toks) && Nested(m.toks) && Sized(m.toks)
  }

  // ---------- chains ----------

  /** The longer array agrees on kinds and parents. */
  ghost predicate SameLinks(toks: seq<Tok>, toks': seq<Tok>) {
    |toks| <= |toks'| && forall i :: 0 <= i < |toks| ==> toks'[i].kind == toks[i].kind && toks'[i].parent == toks[i].parent
  }

  lemma {:induction false} ChainSame(toks: seq<Tok>, toks': seq<Tok>, p: int, i: int)
    requires Linked(toks) && Linked(toks') && SameLinks(toks, toks') && p < |toks|
    ensures OnChain(toks, p, i) == OnChain(toks', p, i)
    decreases p + 1
  {
    if p >= 0 {
      ChainSame(toks, toks', toks[p].parent, i);
    }
  }

  lemma {:induction false} CountSame(toks: seq<Tok>, toks': seq<Tok>, p: int)
    requires Linked(toks) && Linked(toks') && SameLinks(toks, toks') && p < |toks|
    ensures OpenCount(toks, p) == OpenCount(toks', p)
    decreases p + 1
  {
    if p >= 0 {
      CountSame(toks, toks', toks[p].parent);
    }
  }

  lemma {:induction false} ChainBelow(toks: seq<Tok>, p: int, i: int)
    requires Linked(toks) && p < |toks| && OnChain(toks, p, i)
    ensures 0 <= i <= p
    decreases p + 1
  {
    if i != p {
      ChainBelow(toks, toks[p].parent, i);
    }
  }

  lemma {:induction false} ChildrenSame(toks: seq<Tok>, toks': seq<Tok>, i: int, n: nat)
    requires SameLinks(toks, toks') && n <= |toks|
    ensures Children(toks, i, n) == Children(toks', i, n)
  {
    if n > 0 {
      ChildrenSame(toks, toks', i, n - 1);
    }
  }

  lemma {:induction false} NoEarlyChildren(toks: seq<Tok>, i: int, n: nat)
    requires Linked(toks) && n <= |toks| && n <= i + 1
    ensures Children(toks, i, n) == 0
  {
    if n > 0 {
      NoEarlyChildren(toks, i, n - 1);
    }
  }

  /** A pending key is not a container, so leaving it keeps the open containers. */
  lemma PopKeeps(toks: seq<Tok>, p: int)
    requires Shaped(toks) && -1 <= p < |toks| && (p >= 0 ==> MayHold(toks, p))
    ensures var q := PopKey(toks, p);
            && -1 <= q <= p && (q >= 0 ==> Container(toks[q].kind)) && (p >= 0 ==> q >= 0)
            && OpenCount(toks, q) == OpenCount(toks, p)
            && forall i :: 0 <= i < |toks| && Container(toks[i].kind) ==> OnChain(toks, q, i) == OnChain(toks, p, i)
  {
  }

  // ---------- appending a token ----------

  /** The prefix keeps everything but the size of the parent, which counts the new token if it is a container. */
  ghost predicate Extends(m: Machine, n: Machine) {
    && |n.toks| == |m.toks| + 1
    && (forall i :: 0 <= i < |m.toks| ==>
          && n.toks[i].kind == m.toks[i].kind && n.toks[i].parent == m.toks[i].parent
          && n.toks[i].start == m.toks[i].start && n.toks[i].end == m.toks[i].end
          && (Container(m.toks[i].kind) ==> n.toks[i].size == m.toks[i].size + if i == m.parent then 1 else 0))
    && n.toks[|m.toks|].parent == m.parent
  }

  ghost predicate Opens(m: Machine, n: Machine)
    requires Extends(m, n)
  {
    var t := n.toks[|m.toks|];
    && Container(t.kind) && t.end == -1 && t.size == 0 && m.pos <= t.start < n.pos
    && n.parent == |m.toks| && n.depth == m.depth + 1
  }

  ghost predicate AddsScalar(m: Machine, n: Machine)
    requires Extends(m, n)
  {
    var t := n.toks[|m.toks|];
    && (t.kind == Str || t.kind == Primitive) && m.pos <= t.start <= t.end <= n.pos
    && (t.kind == Primitive ==> KindAt(m.toks, m.parent) != Object)
    && n.parent == (if t.kind == Str && KindAt(m.toks, m.parent) == Object then |m.toks| else PopKey(m.toks, m.parent))
    && n.depth == m.depth
  }

  ghost predicate Appends(src: Text, m: Machine, n: Machine) {
    && Extends(m, n) && (Opens(m, n) || AddsScalar(m, n))
    && m.pos <= n.pos <= |src| && Labels(src, n.toks[|m.toks|])
  }

  lemma AppendShape(src: Text, m: Machine, n: Machine)
    requires Inv(src, m) && Appends(src, m, n)
    ensures Shaped(n.toks) && -1 <= n.parent < |n.toks| && (n.parent >= 0 ==> MayHold(n.toks, n.parent))
  {
    hide Chained, Spans, Labels, Siblings, Nested, Sized;
    forall i | 0 <= i < |n.toks| && n.toks[i].parent >= 0
      ensures MayHold(n.toks, n.toks[i].parent)
    {
      if i < |m.toks| {
        assert MayHold(m.toks, m.toks[i].parent);
      }
    }
    PopKeeps(m.toks, m.parent);
  }

  lemma AppendChained(src: Text, m: Machine, n: Machine)
    requires Inv(src, m) && Appends(src, m, n) && Shaped(n.toks) && -1 <= n.parent < |n.toks|
    ensures Chained(n)
  {
    hide Spans, Labels, Siblings, Nested, Sized;
    PopKeeps(m.toks, m.parent);
    var q := PopKey(m.toks, m.parent);
    CountSame(m.toks, n.toks, m.parent);
    CountSame(m.toks, n.toks, q);
    forall i | 0 <= i < |n.toks| && Container(n.toks[i].kind)
      ensures n.toks[i].end == -1 <==> OnChain(n.toks, n.parent, i)
    {
      ChainSame(m.toks, n.toks, m.parent, i);
      ChainSame(m.toks, n.toks, q, i);
      if i == |m.toks| {
        assert OnChain(n.toks, n.parent, i);
      } else {
        assert Container(m.toks[i].kind);
        assert m.toks[i].end == -1 <==> OnChain(m.toks, m.parent, i);
      }
    }
  }

  lemma AppendSpans(src: Text, m: Machine, n: Machine)
    requires Inv(src, m) && Appends(src, m, n)
    ensures Spans(n) && Labeled(src, n.toks)
  {
    hide Shaped, Chained, Siblings, Nested, Sized, MayHold;
    forall i | 0 <= i < |n.toks|
      ensures Labels(src, n.toks[i])
    {
      if i < |m.toks| {
        assert Labels(src, m.toks[i]);
      }
    }
  }

  /** A token whose parent is p or later is closed. */
  lemma LaterClosed(m: Machine, i: int)
    requires Chained(m) && 0 <= i < |m.toks| && m.parent < i && Container(m.toks[i].kind)
    ensures m.toks[i].end != -1
  {
    if OnChain(m.toks, m.parent, i) {
      ChainBelow(m.toks, m.parent, i);
    }
  }

  lemma AppendSiblings(src: Text, m: Machine, n: Machine)
    requires Inv(src, m) && Appends(src, m, n)
    ensures Siblings(n.toks)
  {
    hide Chained, Labels, Nested, Sized, MayHold;
    forall i, j | 0 <= i < j < |n.toks| && n.toks[i].parent == n.toks[j].parent
      ensures n.toks[i].end != -1 && n.toks[i].end <= n.toks[j].start
    {
      if j < |m.toks| {
        assert m.toks[i].parent == m.toks[j].parent;
      } else {
        assert m.toks[i].parent == m.parent;
        if Container(m.toks[i].kind) {
          LaterClosed(m, i);
        }
      }
    }
  }

  lemma AppendNested(src: Text, m: Machine, n: Machine)
    requires Inv(src, m) && Appends(src, m, n)
    ensures Nested(n.toks)
  {
    hide Labels, Siblings, Sized, OnChain, OpenCount;
    forall j | 0 <= j < |n.toks| && 0 <= Owner(n.toks, j) < |n.toks|
      ensures var o := n.toks[Owner(n.toks, j)];
              o.start < n.toks[j].start && (o.end != -1 ==> n.toks[j].end != -1 && n.toks[j].end < o.end)
    {
      if j < |m.toks| {
        assert Owner(m.toks, j) == Owner(n.toks, j);
      } else {
        PopKeeps(m.toks, m.parent);
        var q := PopKey(m.toks, m.parent);
        assert Owner(n.toks, j) == q;
        assert m.toks[q].end == -1 by { SelfOnChain(m.toks, q); }
      }
    }
  }

  lemma SelfOnChain(toks: seq<Tok>, q: int)
    requires Linked(toks) && 0 <= q < |toks|
    ensures OnChain(toks, q, q)
  {}

  lemma AppendSized(src: Text, m: Machine, n: Machine)
    requires Inv(src, m) && Appends(src, m, n) && Shaped(n.toks)
    ensures Sized(n.toks)
  {
    hide Chained, Spans, Labels, Siblings, Nested, MayHold;
    var k := |m.toks|;
    forall i | 0 <= i < |n.toks| && Container(n.toks[i].kind)
      ensures n.toks[i].size == Children(n.toks, i, |n.toks|)
    {
      assert Children(n.toks, i, k + 1) == Children(n.toks, i, k) + if n.toks[k].parent == i then 1 else 0;
      if i < k {
        ChildrenSame(m.toks, n.toks, i, k);
      } else {
        NoEarlyChildren(n.toks, i, k + 1);
      }
    }
  }

  lemma AppendInv(src: Text, m: Machine, n: Machine)
    requires Inv(src, m) && Appends(src, m, n)
    ensures Inv(src, n)
  {
    AppendShape(src, m, n);
    AppendChained(src, m, n);
    AppendSpans(src, m, n);
    AppendSiblings(src, m, n);
    AppendNested(src, m, n);
    AppendSized(src, m, n);
  }

  // ---------- closing a container ----------

  lemma CloseInv(src: Text, m: Machine)
    requires Inv(src, m) && m.pos < |src| && (src[m.pos] == CLOSE_BRACE || src[m.pos] == CLOSE_BRACKET)
    ensures var r := CloseStep(src[m.pos], m); r.Running? ==> Inv(src, r.m)
  {
    var r := CloseStep(src[m.pos], m);
    if r.Running? {
      var p, n := PopKey(m.toks, m.parent), r.m;
      PopKeeps(m.toks, m.parent);
      CloseLinks(src, m, n, p);
      CloseSpans(src, m, n, p);
      CloseNested(src, m, n, p);
    }
  }

  /** Only the end of token p changes. */
  ghost predicate Closes(src: Text, m: Machine, n: Machine, p: int) {
    && m.pos < |src| && n.pos == m.pos + 1 && 0 <= p < |m.toks| && p == PopKey(m.toks, m.parent)
    && n.toks == m.toks[p := m.toks[p].(end := n.pos)] && m.toks[p].end == -1
    && n.parent == m.toks[p].parent && n.depth == m.depth - 1
    && m.toks[p].kind == (if src[m.pos] == CLOSE_BRACE then Object else Array)
    && (src[m.pos] == CLOSE_BRACE || src[m.pos] == CLOSE_BRACKET)
  }

  lemma CloseLinks(src: Text, m: Machine, n: Machine, p: int)
    requires Inv(src, m) && Closes(src, m, n, p)
    ensures Shaped(n.toks) && Chained(n) && Sized(n.toks) && -1 <= n.parent < |n.toks| && (n.parent >= 0 ==> MayHold(n.toks, n.parent))
  {
    hide Spans, Labeled, Siblings, Nested;
    PopKeeps(m.toks, m.parent);
    forall i | 0 <= i < |n.toks| && n.toks[i].parent >= 0
      ensures MayHold(n.toks, n.toks[i].parent)
    {
      assert MayHold(m.toks, m.toks[i].parent);
    }
    CountSame(m.toks, n.toks, n.parent);
    assert OpenCount(m.toks, p) == 1 + OpenCount(m.toks, n.parent);
    forall i | 0 <= i < |n.toks| && Container(n.toks[i].kind)
      ensures n.toks[i].end == -1 <==> OnChain(n.toks, n.parent, i)
      ensures n.toks[i].size == Children(n.toks, i, |n.toks|)
    {
      ChildrenSame(m.toks, n.toks, i, |m.toks|);
      ChainSame(m.toks, n.toks, n.parent, i);
      if i == p {
        if OnChain(m.toks, n.parent, p) {
          ChainBelow(m.toks, n.parent, p);
        }
      } else {
        assert OnChain(m.toks, p, i) == OnChain(m.toks, n.parent, i);
      }
    }
  }

  lemma CloseSpans(src: Text, m: Machine, n: Machine, p: int)
    requires Inv(src, m) && Closes(src, m, n, p)
    ensures Spans(n) && Labeled(src, n.toks) && Siblings(n.toks)
  {
    hide Shaped, Chained, Nested, Sized, MayHold, PopKey;
    forall i | 0 <= i < |n.toks|
      ensures Labels(src, n.toks[i])
    {
      assert Labels(src, m.toks[i]);
    }
    forall i, j | 0 <= i < j < |n.toks| && n.toks[i].parent == n.toks[j].parent
      ensures n.toks[i].end != -1 && n.toks[i].end <= n.toks[j].start
    {
      assert m.toks[i].parent == m.toks[j].parent;
    }
  }

  lemma CloseNested(src: Text, m: Machine, n: Machine, p: int)
    requires Inv(src, m) && Closes(src, m, n, p)
    ensures Nested(n.toks)
  {
    hide Labeled, Siblings, Sized;
    PopKeeps(m.toks, m.parent);
    forall j | 0 <= j < |n.toks| && 0 <= Owner(n.toks, j) < |n.toks|
      ensures var o := n.toks[Owner(n.toks, j)];
              o.start < n.toks[j].start && (o.end != -1 ==> n.toks[j].end != -1 && n.toks[j].end < o.end)
    {
      assert Owner(m.toks, j) == Owner(n.toks, j);
      var o := Owner(m.toks, j);
      assert o < j;
      if o == p && Container(m.toks[j].kind) {
        if OnChain(m.toks, p, j) {
          ChainBelow(m.toks, p, j);
        }
      }
    }
  }

  // ---------- every step, every run ----------

  lemma StepInv(src: Text, max: int, m: Machine)
    requires Inv(src, m) && m.pos < |src|
    ensures var r := Step(src, max, m); r.Running? ==> Inv(src, r.m)
  {
    var r, c := Step(src, max, m), src[m.pos];
    if r.Running? {
      if c == OPEN_BRACE || c == OPEN_BRACKET {
        OpenAppends(src, max, m);
        AppendInv(src, m, r.m);
      } else if c == CLOSE_BRACE || c == CLOSE_BRACKET {
        CloseInv(src, m);
      } else if c == QUOTE {
        StringAppends(src, max, m);
        AppendInv(src, m, r.m);
      } else if Space(c) || c == COLON || c == COMMA {
        PopKeeps(m.toks, m.parent);
      } else {
        PrimitiveAppends(src, max, m);
        AppendInv(src, m, r.m);
      }
    }
  }

  lemma OpenAppends(src: Text, max: int, m: Machine)
    requires Inv(src, m) && m.pos < |src| && (src[m.pos] == OPEN_BRACE || src[m.pos] == OPEN_BRACKET)
    ensures var r := OpenStep(src[m.pos], max, m); r.Running? ==> Appends(src, m, r.m)
  {
    hide Shaped, Chained, Spans, Labeled, Siblings, Nested, Sized;
  }

  lemma StringAppends(src: Text, max: int, m: Machine)
    requires Inv(src, m) && m.pos < |src| && src[m.pos] == QUOTE
    ensures var r := StringStep(src, max, m); r.Running? ==> Appends(src, m, r.m)
  {
    hide Shaped, Chained, Spans, Labeled, Siblings, Nested, Sized;
  }

  lemma PrimitiveAppends(src: Text, max: int, m: Machine)
    requires Inv(src, m) && m.pos < |src|
    ensures var r := PrimitiveStep(src, max, m); r.Running? ==> Appends(src, m, r.m)
  {
    hide Shaped, Chained, Spans, Labeled, Siblings, Nested, Sized;
  }

  lemma {:induction false} RunInv(src: Text, max: int, m: Machine)
    requires Inv(src, m)
    ensures var r := Run(src, max, m); r.Running? ==> Inv(src, r.m) && r.m.pos == |src|
    decreases |src| - m.pos
  {
    hide Inv;
    assert m.pos <= |src| by { PositionInside(src, m); }
    if m.pos < |src| {
      StepInv(src, max, m);
      var r := Step(src, max, m);
      if r.Running? {
        RunInv(src, max, r.m);
      }
    }
  }

  lemma PositionInside(src: Text, m: Machine)
    requires Inv(src, m)
    ensures m.pos <= |src|
  {}

  /** All containers closed, parents first, spans nested and ordered, sizes exact. */
  ghost predicate WellFormed(src: Text, toks: seq<Tok>) {
    && Shaped(toks) && Labeled(src, toks) && Siblings(toks) && Nested(toks) && Sized(toks)
    && forall i :: 0 <= i < |toks| ==> 0 <= toks[i].start <= toks[i].end <= |src|
  }

  /** At depth zero every container is closed, so the invariant is the claim about the finished array. */
  lemma FinishedWellFormed(src: Text, m: Machine)
    requires Inv(src, m) && m.depth == 0
    ensures WellFormed(src, m.toks)
  {
    hide Labeled, Siblings, Nested, Sized;
    PopKeeps(m.toks, m.parent);
    assert m.parent == -1;
    forall i | 0 <= i < |m.toks|
      ensures 0 <= m.toks[i].start <= m.toks[i].end <= |src|
    {
      if Container(m.toks[i].kind) {
        LaterClosed(m, i);
      }
    }
  }

  lemma StartInv(src: Text)
    ensures Inv(src, START)
  {}

  /** Every accepted text has a well-formed token array. */
  lemma AcceptedWellFormed(src: Text, max: int)
    requires Tokenize(src, max).Running?
    ensures var toks := Tokenize(src, max).m.toks; 0 < |toks| <= max && WellFormed(src, toks)
  {
    hide Run, Inv, WellFormed;
    StartInv(src);
    RunInv(src, max, START);
    RunCount(src, max, START);
    FinishedWellFormed(src, Run(src, max, START).m);
  }

  lemma {:induction false} RunCount(src: Text, max: int, m: Machine)
    requires |m.toks| == 0 || |m.toks| <= max
    ensures var r := Run(src, max, m); r.Running? ==> |r.m.toks| == 0 || |r.m.toks| <= max
    decreases |src| - m.pos
  {
    hide ScanString, ScanPrimitive;
    if m.pos < |src| && Step(src, max, m).Running? {
      RunCount(src, max, Step(src, max, m).m);
    }
  }
}
