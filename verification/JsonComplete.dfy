/** Every text of RFC 8259 is accepted, and its tokens are the preorder of its tree. */
module JsonComplete {
  import opened Radix
  import opened JsonTokenizer
  import opened JsonGrammar

  /** The machine may read a value: at top level, in an array, or after a key. */
  ghost predicate Expecting(m: Machine) {
    && -1 <= m.parent < |m.toks|
    && (m.parent >= 0 ==> m.toks[m.parent].kind == Array || (m.toks[m.parent].kind == Str && -1 <= m.toks[m.parent].parent < m.parent))
  }

  /** What a value adds to the size of its parent: container values do not count in their key. */
  function Counted(toks: seq<Tok>, p: int, v: Value): (r: seq<Tok>)
    ensures |r| == |toks|
  {
    if IsScalar(v) || KindAt(toks, p) == Array then Bump(toks, p) else toks
  }

  /** The parent after a value: a scalar completes its key, a container leaves the key pending. */
  function ParentAfter(toks: seq<Tok>, p: int, v: Value): int {
    if IsScalar(v) then PopKey(toks, p) else p
  }

  function AfterValue(m: Machine, v: Value): Machine {
    Machine(m.pos + |Render(v)|, Counted(m.toks, m.parent, v) + Tokens(v, m.pos, |m.toks|, m.parent), ParentAfter(m.toks, m.parent, v), m.depth)
  }

  function Grown(toks: seq<Tok>, i: int, k: int): (r: seq<Tok>)
    ensures |r| == |toks|
  {
    if 0 <= i < |toks| then toks[i := toks[i].(size := toks[i].size + k)] else toks
  }

  function AfterItems(m: Machine, items: Items): Machine {
    Machine(m.pos + |RenderItems(items)|, Grown(m.toks, m.parent, ItemCount(items)) + ItemTokens(items, m.pos, |m.toks|, m.parent), m.parent, m.depth)
  }

  /** The parent after the last member: its key when the value is a container. */
  function LastParent(ms: Members, obj: int, i: nat): int {
    match ms
    case NoMembers => obj
    case Member(_, _, _, _, value, _, rest) =>
      if rest.NoMembers? then (if IsScalar(value) then obj else i) else LastParent(rest, obj, i + 1 + Count(value))
  }

  function AfterMembers(m: Machine, ms: Members): Machine {
    Machine(m.pos + |RenderMembers(ms)|, Grown(m.toks, m.parent, MemberCount(ms)) + MemberTokens(ms, m.pos, |m.toks|, m.parent),
      LastParent(ms, m.parent, |m.toks|), m.depth)
  }

  // ---------- scalars ----------

  lemma ScalarPlain(t: Text)
    requires IsLiteral(t) || IsNumber(t)
    ensures |t| > 0 && AllPlain(t)
  {
    hide IsNumber;
    if IsNumber(t) {
      NumberPlain(t);
    }
  }

  lemma PlainStep(src: Text, max: int, m: Machine, e: nat)
    requires m.pos < |src| && Plain(src[m.pos]) && ScanPrimitive(src, m.pos) == Stop(e) && e > m.pos
    requires Expecting(m) && |m.toks| < max
    ensures Step(src, max, m) == Running(Machine(e, Bump(m.toks, m.parent) + [Tok(Primitive, m.pos, e, 0, m.parent)], PopKey(m.toks, m.parent), m.depth))
  {
    hide ScanPrimitive;
    var t := Tok(Primitive, m.pos, e, 0, m.parent);
    assert Bump(m.toks + [t], m.parent) == Bump(m.toks, m.parent) + [t];
  }

  lemma RunScalar(src: Text, max: int, m: Machine, v: Value)
    requires At(src, m.pos, Render(v)) && Ends(src, m.pos + |Render(v)|) && ValidValue(v) && v.Scalar?
    requires Expecting(m) && |m.toks| < max
    ensures Run(src, max, m) == Run(src, max, AfterValue(m, v))
  {
    hide At, ScanPrimitive, Ends, Expecting, IsLiteral, IsNumber, Step, Plain;
    var t := v.text;
    ScalarPlain(t);
    ScanPlain(src, m.pos, t);
    AtIndex(src, m.pos, t, 0);
    PlainStep(src, max, m, m.pos + |t|);
  }

  lemma RunQuoted(src: Text, max: int, m: Machine, v: Value)
    requires At(src, m.pos, Render(v)) && ValidValue(v) && v.Quoted?
    requires Expecting(m) && |m.toks| < max
    ensures Run(src, max, m) == Run(src, max, AfterValue(m, v))
  {
    hide ScanString, Chars;
    QuotedAt(src, m.pos, v.raw);
    var t := Tok(Str, m.pos + 1, m.pos + 1 + |v.raw|, 0, m.parent);
    assert Bump(m.toks + [t], m.parent) == Bump(m.toks, m.parent) + [t];
    assert Step(src, max, m) == Running(AfterValue(m, v));
  }

  lemma QuotedAt(src: Text, p: nat, raw: Text)
    requires At(src, p, [QUOTE] + raw + [QUOTE]) && Chars(raw)
    ensures src[p] == QUOTE && ScanString(src, p + 1) == Stop(p + 1 + |raw|)
  {
    hide ScanString, Chars, At;
    AtSplit(src, p, [QUOTE] + raw, [QUOTE]);
    AtSplit(src, p, [QUOTE], raw);
    AtIndex(src, p, [QUOTE], 0);
    AtIndex(src, p + 1 + |raw|, [QUOTE], 0);
    ScanChars(src, p + 1, raw);
  }

  // ---------- containers ----------

  /** The machine just after an opening bracket or brace. */
  function Opened(m: Machine, v: Value): Machine {
    Machine(m.pos + 1, Counted(m.toks, m.parent, v) + [Tok(if v.Arr? then Array else Object, m.pos, -1, 0, m.parent)], |m.toks|, m.depth + 1)
  }

  lemma RunOpen(src: Text, max: int, m: Machine, v: Value)
    requires m.pos < |src| && src[m.pos] == (if v.Arr? then OPEN_BRACKET else OPEN_BRACE) && (v.Arr? || v.Obj?)
    requires Expecting(m) && |m.toks| < max
    ensures Run(src, max, m) == Run(src, max, Opened(m, v))
  {
    assert Step(src, max, m) == Running(Opened(m, v));
  }

  /** A closing bracket completes the container whose contents have been read. */
  lemma RunClose(src: Text, max: int, m: Machine, v: Value, inner: Machine, toks: seq<Tok>)
    requires v.Arr? || v.Obj?
    requires inner.pos < |src| && src[inner.pos] == (if v.Arr? then CLOSE_BRACKET else CLOSE_BRACE) && inner.pos + 1 == m.pos + |Render(v)|
    requires inner.toks == Grown(Opened(m, v).toks, |m.toks|, if v.Arr? then ItemCount(v.items) else MemberCount(v.members)) + toks
    requires Tokens(v, m.pos, |m.toks|, m.parent)[1..] == toks && PopKey(inner.toks, inner.parent) == |m.toks| && inner.depth == m.depth + 1
    ensures Run(src, max, inner) == Run(src, max, AfterValue(m, v))
  {
    hide Run, Tokens, Render, Counted, ItemCount, MemberCount, Expecting;
    HeadAndRest(m, v, toks);
    var open := Tok(if v.Arr? then Array else Object, m.pos, -1, 0, m.parent);
    CloseToks(Counted(m.toks, m.parent, v), open, if v.Arr? then ItemCount(v.items) else MemberCount(v.members), inner.pos + 1, toks);
    assert Step(src, max, inner) == CloseStep(src[inner.pos], inner);
    RunOne(src, max, inner, AfterValue(m, v));
  }

  /** Closing writes the end into the container's token and nothing else. */
  lemma CloseToks(base: seq<Tok>, open: Tok, k: int, e: int, toks: seq<Tok>)
    ensures var i := |base|;
            var t := Grown(base + [open], i, k) + toks;
            t[i] == open.(size := open.size + k) && t[i := t[i].(end := e)] == base + ([open.(size := open.size + k, end := e)] + toks)
  {}

  lemma RunOne(src: Text, max: int, m: Machine, n: Machine)
    requires m.pos < |src| && Step(src, max, m) == Running(n)
    ensures Run(src, max, m) == Run(src, max, n)
  {
    hide Step;
  }

  /** The token of a container once it is closed. */
  function HeadToken(m: Machine, v: Value): Tok
    requires v.Arr? || v.Obj?
  {
    Tok(if v.Arr? then Array else Object, m.pos, m.pos + |Render(v)|, if v.Arr? then ItemCount(v.items) else MemberCount(v.members), m.parent)
  }

  lemma HeadAndRest(m: Machine, v: Value, toks: seq<Tok>)
    requires (v.Arr? || v.Obj?) && Tokens(v, m.pos, |m.toks|, m.parent)[1..] == toks
    ensures Tokens(v, m.pos, |m.toks|, m.parent) == [HeadToken(m, v)] + toks
  {
    hide Render, ItemTokens, MemberTokens;
  }

  lemma {:induction false} RunValue(src: Text, max: int, m: Machine, v: Value)
    requires At(src, m.pos, Render(v)) && Ends(src, m.pos + |Render(v)|) && ValidValue(v)
    requires Expecting(m) && |m.toks| + Count(v) <= max
    ensures Run(src, max, m) == Run(src, max, AfterValue(m, v))
    decreases v, 1
  {
    match v
    case Scalar(_) => RunScalar(src, max, m, v);
    case Quoted(_) => RunQuoted(src, max, m, v);
    case Arr(_, _) => RunArray(src, max, m, v);
    case Obj(_, _) => RunObject(src, max, m, v);
  }

  lemma BracketsAt(src: Text, p: nat, open: byte, inner: Text, close: byte)
    requires At(src, p, [open] + inner + [close])
    ensures p < |src| && src[p] == open && At(src, p + 1, inner)
    ensures p + 1 + |inner| < |src| && src[p + 1 + |inner|] == close
  {
    AtSplit(src, p, [open] + inner, [close]);
    AtSplit(src, p, [open], inner);
    AtIndex(src, p, [open], 0);
    AtIndex(src, p + 1 + |inner|, [close], 0);
  }

  lemma ArrayFacts(v: Value)
    requires v.Arr? && ValidValue(v)
    ensures Count(v) == 1 + CountItems(v.items) && Spaces(v.gap) && ValidItems(v.items)
    ensures Render(v) == [OPEN_BRACKET] + (if v.items.NoItems? then v.gap else RenderItems(v.items)) + [CLOSE_BRACKET]
  {
    hide RenderItems, CountItems, ValidItems;
  }

  lemma {:induction false} RunArray(src: Text, max: int, m: Machine, v: Value)
    requires At(src, m.pos, Render(v)) && ValidValue(v) && v.Arr?
    requires Expecting(m) && |m.toks| + Count(v) <= max
    ensures Run(src, max, m) == Run(src, max, AfterValue(m, v))
    decreases v, 0
  {
    hide Run, Step, At, Spaces, Render, RenderItems, Count, CountItems, ValidItems, ValidValue, Tokens, ItemTokens, AfterValue, AfterItems;
    ArrayFacts(v);
    var inner := if v.items.NoItems? then v.gap else RenderItems(v.items);
    BracketsAt(src, m.pos, OPEN_BRACKET, inner, CLOSE_BRACKET);
    RunOpen(src, max, m, v);
    var o := Opened(m, v);
    if v.items.NoItems? {
      RunSpaces(src, max, o, inner);
      EmptyArrayClosed(src, max, m, v);
    } else {
      RunItems(src, max, o, v.items);
      ArrayClosed(src, max, m, v);
    }
  }

  lemma EmptyArrayClosed(src: Text, max: int, m: Machine, v: Value)
    requires v.Arr? && v.items.NoItems? && Expecting(m)
    requires var p := m.pos + 1 + |v.gap|; p < |src| && src[p] == CLOSE_BRACKET
    ensures var o := Opened(m, v); Run(src, max, o.(pos := o.pos + |v.gap|)) == Run(src, max, AfterValue(m, v))
  {
    hide Run, AfterValue;
    var o := Opened(m, v);
    RunClose(src, max, m, v, o.(pos := o.pos + |v.gap|), []);
  }

  lemma ArrayClosed(src: Text, max: int, m: Machine, v: Value)
    requires v.Arr? && v.items.Item? && Expecting(m)
    requires var p := m.pos + 1 + |RenderItems(v.items)|; p < |src| && src[p] == CLOSE_BRACKET
    ensures Run(src, max, AfterItems(Opened(m, v), v.items)) == Run(src, max, AfterValue(m, v))
  {
    hide Run, RenderItems, ItemTokens, ItemCount, AfterValue;
    var o := Opened(m, v);
    RunClose(src, max, m, v, AfterItems(o, v.items), ItemTokens(v.items, o.pos, |o.toks|, o.parent));
  }

  /** The machine after the first item and the white space around it. */
  function AfterItem(m: Machine, items: Items): Machine
    requires items.Item?
  {
    var n := AfterValue(m.(pos := m.pos + |items.pre|), items.value);
    n.(pos := n.pos + |items.post|)
  }

  lemma ItemsStep(m: Machine, items: Items)
    requires items.Item? && 0 <= m.parent < |m.toks| && m.toks[m.parent].kind == Array
    ensures var n := AfterItem(m, items);
            && n.parent == m.parent && |n.toks| == |m.toks| + Count(items.value) && n.toks[n.parent].kind == Array
            && (items.rest.NoItems? ==> n == AfterItems(m, items))
            && (items.rest.Item? ==> AfterItems(n.(pos := n.pos + 1), items.rest) == AfterItems(m, items))
  {
    hide Render, Tokens, Count;
    var n, value, rest := AfterItem(m, items), items.value, items.rest;
    var first := Tokens(value, m.pos + |items.pre|, |m.toks|, m.parent);
    assert n.toks == Grown(m.toks, m.parent, 1) + first;
    if rest.Item? {
      var more := ItemTokens(rest, n.pos + 1, |n.toks|, m.parent);
      GrownTwice(m.toks, m.parent, first, ItemCount(rest), more);
      assert ItemTokens(items, m.pos, |m.toks|, m.parent) == first + more;
      assert |RenderItems(items)| == n.pos - m.pos + 1 + |RenderItems(rest)|;
    } else {
      assert ItemTokens(items, m.pos, |m.toks|, m.parent) == first;
      assert |RenderItems(items)| == n.pos - m.pos;
    }
  }

  lemma {:induction false} RunItem(src: Text, max: int, m: Machine, items: Items)
    requires At(src, m.pos, RenderItems(items)) && Ends(src, m.pos + |RenderItems(items)|) && ValidItems(items) && items.Item?
    requires 0 <= m.parent < |m.toks| && m.toks[m.parent].kind == Array && |m.toks| + Count(items.value) <= max
    ensures var n := AfterItem(m, items); Run(src, max, m) == Run(src, max, n) && At(src, n.pos, MoreItems(items.rest))
    decreases items, 0
  {
    hide Run, At, Spaces, Ends, Render, Tokens, Count, Counted, ParentAfter, ValidValue, MoreItems;
    var Item(pre, value, post, rest) := items;
    AtSplit(src, m.pos, pre, Render(value) + (post + MoreItems(rest)));
    RunSpaces(src, max, m, pre);
    var m1 := m.(pos := m.pos + |pre|);
    AtSplit(src, m1.pos, Render(value), post + MoreItems(rest));
    var m2 := AfterValue(m1, value);
    AtSplit(src, m2.pos, post, MoreItems(rest));
    MoreItemsStart(rest);
    EndsAfter(src, m2.pos, post, MoreItems(rest));
    RunValue(src, max, m1, value);
    RunSpaces(src, max, m2, post);
    assert AfterItem(m, items) == m2.(pos := m2.pos + |post|);
    hide AfterItem, AfterValue, RenderItems, ValidItems, IsScalar;
  }

  lemma MoreItemsStart(items: Items)
    ensures if items.NoItems? then MoreItems(items) == [] else MoreItems(items) == [COMMA] + RenderItems(items)
  {}

  lemma {:induction false} RunItems(src: Text, max: int, m: Machine, items: Items)
    requires At(src, m.pos, RenderItems(items)) && Ends(src, m.pos + |RenderItems(items)|) && ValidItems(items) && items.Item?
    requires 0 <= m.parent < |m.toks| && m.toks[m.parent].kind == Array && |m.toks| + CountItems(items) <= max
    ensures Run(src, max, m) == Run(src, max, AfterItems(m, items))
    decreases items, 1
  {
    hide Run, At, Ends, Render, Count, ItemTokens, ItemCount, AfterItems, AfterValue, ValidValue;
    RunItem(src, max, m, items);
    ItemsStep(m, items);
    if items.rest.Item? {
      var n := AfterItem(m, items);
      RunComma(src, max, n, RenderItems(items.rest));
      assert n.pos + |MoreItems(items.rest)| == m.pos + |RenderItems(items)| by { ItemLength(m, items); }
      RunItems(src, max, n.(pos := n.pos + 1), items.rest);
    }
  }

  lemma ItemLength(m: Machine, items: Items)
    requires items.Item?
    ensures AfterItem(m, items).pos + |MoreItems(items.rest)| == m.pos + |RenderItems(items)|
  {
    hide Render, Tokens;
  }

  /** White space, a comma or the end of the enclosing text ends a value. */
  lemma EndsAfter(src: Text, p: int, post: Text, more: Text)
    requires At(src, p, post) && At(src, p + |post|, more) && Spaces(post) && Ends(src, p + |post| + |more|)
    requires more == [] || more[0] == COMMA
    ensures Ends(src, p)
  {
    if |post| > 0 {
      AtIndex(src, p, post, 0);
    } else if |more| > 0 {
      AtIndex(src, p, more, 0);
    }
  }

  lemma RunComma(src: Text, max: int, m: Machine, more: Text)
    requires At(src, m.pos, [COMMA] + more)
    ensures At(src, m.pos + 1, more)
    ensures Run(src, max, m) == Run(src, max, m.(pos := m.pos + 1, parent := PopKey(m.toks, m.parent)))
  {
    AtSplit(src, m.pos, [COMMA], more);
    AtIndex(src, m.pos, [COMMA], 0);
  }

  lemma GrownTwice(toks: seq<Tok>, i: int, first: seq<Tok>, k: int, more: seq<Tok>)
    requires 0 <= i < |toks|
    ensures Grown(Grown(toks, i, 1) + first, i, k) + more == Grown(toks, i, 1 + k) + (first + more)
  {}

  // ---------- objects ----------

  lemma ObjectFacts(v: Value)
    requires v.Obj? && ValidValue(v)
    ensures Count(v) == 1 + CountMembers(v.members) && Spaces(v.gap) && ValidMembers(v.members)
    ensures Render(v) == [OPEN_BRACE] + (if v.members.NoMembers? then v.gap else RenderMembers(v.members)) + [CLOSE_BRACE]
  {
    hide RenderMembers, CountMembers, ValidMembers;
  }

  lemma {:induction false} RunObject(src: Text, max: int, m: Machine, v: Value)
    requires At(src, m.pos, Render(v)) && ValidValue(v) && v.Obj?
    requires Expecting(m) && |m.toks| + Count(v) <= max
    ensures Run(src, max, m) == Run(src, max, AfterValue(m, v))
    decreases v, 0
  {
    hide Run, Step, At, Spaces, Render, RenderMembers, Count, CountMembers, ValidMembers, ValidValue, Tokens, MemberTokens, AfterValue, AfterMembers;
    ObjectFacts(v);
    var inner := if v.members.NoMembers? then v.gap else RenderMembers(v.members);
    BracketsAt(src, m.pos, OPEN_BRACE, inner, CLOSE_BRACE);
    RunOpen(src, max, m, v);
    var o := Opened(m, v);
    if v.members.NoMembers? {
      RunSpaces(src, max, o, inner);
      EmptyObjectClosed(src, max, m, v);
    } else {
      RunMembers(src, max, o, v.members);
      ObjectClosed(src, max, m, v);
    }
  }

  lemma EmptyObjectClosed(src: Text, max: int, m: Machine, v: Value)
    requires v.Obj? && v.members.NoMembers? && Expecting(m)
    requires var p := m.pos + 1 + |v.gap|; p < |src| && src[p] == CLOSE_BRACE
    ensures var o := Opened(m, v); Run(src, max, o.(pos := o.pos + |v.gap|)) == Run(src, max, AfterValue(m, v))
  {
    hide Run, AfterValue;
    var o := Opened(m, v);
    RunClose(src, max, m, v, o.(pos := o.pos + |v.gap|), []);
  }

  lemma ObjectClosed(src: Text, max: int, m: Machine, v: Value)
    requires v.Obj? && v.members.Member? && Expecting(m)
    requires var p := m.pos + 1 + |RenderMembers(v.members)|; p < |src| && src[p] == CLOSE_BRACE
    ensures Run(src, max, AfterMembers(Opened(m, v), v.members)) == Run(src, max, AfterValue(m, v))
  {
    hide Run, RenderMembers, MemberTokens, MemberCount, AfterValue, LastParent;
    var o := Opened(m, v);
    LastPops(o, v.members);
    RunClose(src, max, m, v, AfterMembers(o, v.members), MemberTokens(v.members, o.pos, |o.toks|, o.parent));
  }

  /** The last parent is the object or one of its keys. */
  lemma {:induction false} LastKey(ms: Members, at: int, i: nat, obj: int)
    requires 0 <= obj < i
    ensures var p, toks := LastParent(ms, obj, i), MemberTokens(ms, at, i, obj);
            p == obj || (i <= p < i + |toks| && toks[p - i].kind == Str && toks[p - i].parent == obj)
  {
    if ms.Member? && ms.rest.Member? {
      LastKey(ms.rest, RestAt(ms, at), i + 1 + Count(ms.value), obj);
    }
  }

  lemma LastPops(m: Machine, ms: Members)
    requires 0 <= m.parent < |m.toks| && m.toks[m.parent].kind == Object
    ensures var n := AfterMembers(m, ms); PopKey(n.toks, n.parent) == m.parent
  {
    LastKey(ms, m.pos, |m.toks|, m.parent);
  }

  /** The key, the colon and the white space around it. */
  lemma RunKey(src: Text, max: int, m: Machine, key: Text, beforeColon: Text, afterColon: Text, more: Text)
    requires At(src, m.pos, ([QUOTE] + key + [QUOTE]) + (beforeColon + ([COLON] + (afterColon + more))))
    requires Chars(key) && Spaces(beforeColon) && Spaces(afterColon)
    requires 0 <= m.parent < |m.toks| && m.toks[m.parent].kind == Object && |m.toks| < max
    ensures var t := Tok(Str, m.pos + 1, m.pos + 1 + |key|, 0, m.parent);
            var n := Machine(m.pos + |key| + 2 + |beforeColon| + 1 + |afterColon|, Bump(m.toks, m.parent) + [t], |m.toks|, m.depth);
            At(src, n.pos, more) && Run(src, max, m) == Run(src, max, n)
  {
    hide ScanString, Chars, Spaces, At;
    var q := [QUOTE] + key + [QUOTE];
    AtSplit(src, m.pos, q, beforeColon + ([COLON] + (afterColon + more)));
    QuotedAt(src, m.pos, key);
    KeyPosition(src, m.pos, q);
    var t := Tok(Str, m.pos + 1, m.pos + 1 + |key|, 0, m.parent);
    assert Bump(m.toks + [t], m.parent) == Bump(m.toks, m.parent) + [t];
    var m1 := Machine(m.pos + |q|, Bump(m.toks, m.parent) + [t], |m.toks|, m.depth);
    assert Step(src, max, m) == Running(m1);
    assert Run(src, max, m) == Run(src, max, m1);
    AtSplit(src, m1.pos, beforeColon, [COLON] + (afterColon + more));
    RunSpaces(src, max, m1, beforeColon);
    var m2 := m1.(pos := m1.pos + |beforeColon|);
    AtSplit(src, m2.pos, [COLON], afterColon + more);
    AtIndex(src, m2.pos, [COLON], 0);
    var m3 := m2.(pos := m2.pos + 1);
    assert Step(src, max, m2) == Running(m3);
    assert Run(src, max, m2) == Run(src, max, m3);
    hide Run, Step, Bump;
    AtSplit(src, m3.pos, afterColon, more);
    RunSpaces(src, max, m3, afterColon);
  }

  lemma KeyPosition(src: Text, p: nat, q: Text)
    requires At(src, p, q) && |q| > 0
    ensures p < |src|
  {}

  /** A member adds its key, with the value counted if scalar, and the tokens of the value. */
  lemma MemberAdded(m: Machine, value: Value, keyTok: Tok, at: nat, first: seq<Tok>)
    requires 0 <= m.parent < |m.toks| && m.toks[m.parent].kind == Object && keyTok.kind == Str && keyTok.parent == m.parent && keyTok.size == 0
    requires first == [keyTok.(size := if IsScalar(value) then 1 else 0)] + Tokens(value, at, |m.toks| + 1, |m.toks|)
    ensures var n := AfterValue(Machine(at, Bump(m.toks, m.parent) + [keyTok], |m.toks|, m.depth), value);
            n.toks == Grown(m.toks, m.parent, 1) + first && PopKey(n.toks, n.parent) == m.parent
  {
    hide Render, Tokens;
    var toks := Bump(m.toks, m.parent) + [keyTok];
    assert Counted(toks, |m.toks|, value) == Grown(m.toks, m.parent, 1) + [keyTok.(size := if IsScalar(value) then 1 else 0)];
  }

  /** The machine after the first member and the white space around it. */
  function AfterMember(m: Machine, ms: Members): Machine
    requires ms.Member?
  {
    var t := Tok(Str, m.pos + |ms.pre| + 1, m.pos + |ms.pre| + 1 + |ms.key|, 0, m.parent);
    var n := AfterValue(Machine(ValueAt(ms, m.pos), Bump(m.toks, m.parent) + [t], |m.toks|, m.depth), ms.value);
    n.(pos := n.pos + |ms.post|)
  }

  /** The tokens after the first member: its key, counted if the value is scalar, and the value's tokens. */
  function MemberFirst(m: Machine, ms: Members): (r: seq<Tok>)
    requires ms.Member?
    ensures |r| == 1 + Count(ms.value)
  {
    [Tok(Str, m.pos + |ms.pre| + 1, m.pos + |ms.pre| + 1 + |ms.key|, if IsScalar(ms.value) then 1 else 0, m.parent)]
      + Tokens(ms.value, ValueAt(ms, m.pos), |m.toks| + 1, |m.toks|)
  }

  lemma AfterMemberToks(m: Machine, ms: Members)
    requires ms.Member? && 0 <= m.parent < |m.toks| && m.toks[m.parent].kind == Object
    ensures var n := AfterMember(m, ms);
            && n.toks == Grown(m.toks, m.parent, 1) + MemberFirst(m, ms) && PopKey(n.toks, n.parent) == m.parent
            && n.pos == RestAt(ms, m.pos) - 1 && n.depth == m.depth
            && n.parent == if IsScalar(ms.value) then m.parent else |m.toks|
  {
    hide Render, Tokens, Count;
    var t := Tok(Str, m.pos + |ms.pre| + 1, m.pos + |ms.pre| + 1 + |ms.key|, 0, m.parent);
    MemberAdded(m, ms.value, t, ValueAt(ms, m.pos), MemberFirst(m, ms));
  }

  lemma MembersStep(m: Machine, ms: Members)
    requires ms.Member? && 0 <= m.parent < |m.toks| && m.toks[m.parent].kind == Object
    ensures var n := AfterMember(m, ms);
            && |n.toks| == |m.toks| + 1 + Count(ms.value) && n.toks[m.parent].kind == Object && PopKey(n.toks, n.parent) == m.parent
            && (ms.rest.NoMembers? ==> n == AfterMembers(m, ms))
            && (ms.rest.Member? ==> AfterMembers(n.(pos := n.pos + 1, parent := m.parent), ms.rest) == AfterMembers(m, ms))
  {
    hide Render, Tokens, Count, AfterMember, AfterMembers, MemberFirst, PopKey, ValueAt;
    AfterMemberToks(m, ms);
    if ms.rest.Member? {
      MoreMembersStep(m, ms);
    } else {
      LastMemberStep(m, ms);
    }
  }

  lemma LastMemberStep(m: Machine, ms: Members)
    requires ms.Member? && 0 <= m.parent < |m.toks| && m.toks[m.parent].kind == Object && ms.rest.NoMembers?
    ensures AfterMember(m, ms) == AfterMembers(m, ms)
  {
    hide Render, Tokens, Count, AfterMember, MemberFirst, PopKey, ValueAt;
    AfterMemberToks(m, ms);
    MembersUnfold(m, ms);
    MemberLength(m, ms);
    var n, rest, first := AfterMember(m, ms), ms.rest, MemberFirst(m, ms);
    assert MoreMembers(rest) == [] && MemberTokens(rest, n.pos + 1, |n.toks|, m.parent) == [] && MemberCount(ms) == 1;
    assert first + [] == first;
  }

  lemma MoreMembersStep(m: Machine, ms: Members)
    requires ms.Member? && 0 <= m.parent < |m.toks| && m.toks[m.parent].kind == Object && ms.rest.Member?
    ensures var n := AfterMember(m, ms); AfterMembers(n.(pos := n.pos + 1, parent := m.parent), ms.rest) == AfterMembers(m, ms)
  {
    hide Render, Tokens, Count, AfterMember, MemberFirst, PopKey, ValueAt;
    AfterMemberToks(m, ms);
    MembersUnfold(m, ms);
    MemberLength(m, ms);
    var n, rest := AfterMember(m, ms), ms.rest;
    GrownTwice(m.toks, m.parent, MemberFirst(m, ms), MemberCount(rest), MemberTokens(rest, n.pos + 1, |n.toks|, m.parent));
  }

  lemma MembersUnfold(m: Machine, ms: Members)
    requires ms.Member?
    ensures MemberTokens(ms, m.pos, |m.toks|, m.parent)
         == MemberFirst(m, ms) + MemberTokens(ms.rest, RestAt(ms, m.pos), |m.toks| + 1 + Count(ms.value), m.parent)
  {
    hide Render, Tokens, Count;
  }

  lemma {:induction false} RunMember(src: Text, max: int, m: Machine, ms: Members)
    requires At(src, m.pos, RenderMembers(ms)) && Ends(src, m.pos + |RenderMembers(ms)|) && ValidMembers(ms) && ms.Member?
    requires 0 <= m.parent < |m.toks| && m.toks[m.parent].kind == Object && |m.toks| + 1 + Count(ms.value) <= max
    ensures var n := AfterMember(m, ms); Run(src, max, m) == Run(src, max, n) && At(src, n.pos, MoreMembers(ms.rest))
    decreases ms, 0
  {
    hide Run, At, Spaces, Ends, Render, Chars, Tokens, Count, Counted, ParentAfter, ValidValue, MoreMembers;
    var Member(pre, key, beforeColon, afterColon, value, post, rest) := ms;
    var tail := post + MoreMembers(rest);
    AtSplit(src, m.pos, pre, ([QUOTE] + key + [QUOTE]) + (beforeColon + ([COLON] + (afterColon + (Render(value) + tail)))));
    RunSpaces(src, max, m, pre);
    var m1 := m.(pos := m.pos + |pre|);
    RunKey(src, max, m1, key, beforeColon, afterColon, Render(value) + tail);
    var t := Tok(Str, m1.pos + 1, m1.pos + 1 + |key|, 0, m.parent);
    var m2 := Machine(ValueAt(ms, m.pos), Bump(m.toks, m.parent) + [t], |m.toks|, m.depth);
    AtSplit(src, m2.pos, Render(value), tail);
    var m3 := AfterValue(m2, value);
    AtSplit(src, m3.pos, post, MoreMembers(rest));
    MoreStartsWithComma(rest);
    EndsAfter(src, m3.pos, post, MoreMembers(rest));
    RunValue(src, max, m2, value);
    RunSpaces(src, max, m3, post);
  }

  lemma MoreStartsWithComma(ms: Members)
    ensures if ms.NoMembers? then MoreMembers(ms) == [] else MoreMembers(ms) == [COMMA] + RenderMembers(ms)
  {}

  lemma {:induction false} RunMembers(src: Text, max: int, m: Machine, ms: Members)
    requires At(src, m.pos, RenderMembers(ms)) && Ends(src, m.pos + |RenderMembers(ms)|) && ValidMembers(ms) && ms.Member?
    requires 0 <= m.parent < |m.toks| && m.toks[m.parent].kind == Object && |m.toks| + CountMembers(ms) <= max
    ensures Run(src, max, m) == Run(src, max, AfterMembers(m, ms))
    decreases ms, 1
  {
    hide Run, At, Ends, Render, Count, MemberTokens, MemberCount, AfterMembers, AfterValue, ValidValue;
    RunMember(src, max, m, ms);
    MembersStep(m, ms);
    if ms.rest.Member? {
      var n := AfterMember(m, ms);
      RunComma(src, max, n, RenderMembers(ms.rest));
      assert n.pos + |MoreMembers(ms.rest)| == m.pos + |RenderMembers(ms)| by { MemberLength(m, ms); }
      RunMembers(src, max, n.(pos := n.pos + 1, parent := m.parent), ms.rest);
    }
  }

  lemma MemberLength(m: Machine, ms: Members)
    requires ms.Member?
    ensures AfterMember(m, ms).pos + |MoreMembers(ms.rest)| == m.pos + |RenderMembers(ms)|
  {
    hide Render, Tokens;
  }

  // ---------- whole texts ----------

  /** JSON-text = ws value ws */
  function Document(pre: Text, v: Value, post: Text): Text {
    pre + (Render(v) + post)
  }

  /** Every text of the grammar that fits the limits is tokenized into the preorder of its tree. */
  lemma GrammarAccepted(pre: Text, v: Value, post: Text, max: int)
    requires Spaces(pre) && ValidValue(v) && Spaces(post)
    requires |Document(pre, v, post)| <= INT_MAX && Count(v) <= max
    ensures var r := Tokenize(Document(pre, v, post), max); r.Running? && r.m.toks == Tokens(v, |pre|, 0, -1)
  {
    hide Step, Spaces, Ends, Render, Tokens, Run, Document, AfterValue;
    RunDocument(pre, v, post, max);
    FirstTokens(pre, v);
  }

  lemma RunDocument(pre: Text, v: Value, post: Text, max: int)
    requires Spaces(pre) && ValidValue(v) && Spaces(post) && Count(v) <= max
    ensures var src := Document(pre, v, post);
            Run(src, max, START) == Running(AfterValue(START.(pos := |pre|), v).(pos := |src|))
  {
    hide Step, Spaces, Ends, Render, Tokens, Run;
    var src := Document(pre, v, post);
    assert At(src, 0, pre + (Render(v) + post));
    AtSplit(src, 0, pre, Render(v) + post);
    AtSplit(src, |pre|, Render(v), post);
    var m1 := START.(pos := |pre|);
    var m2 := AfterValue(m1, v);
    EndsAtEnd(src, m2.pos, post);
    hide At;
    RunSpaces(src, max, START, pre);
    RunValue(src, max, m1, v);
    RunSpaces(src, max, m2, post);
    RunDone(src, max, m2.(pos := |src|));
  }

  lemma FirstTokens(pre: Text, v: Value)
    ensures var m := AfterValue(START.(pos := |pre|), v); m.toks == Tokens(v, |pre|, 0, -1) && m.depth == 0 && |m.toks| > 0
  {
    hide Render;
  }

  lemma EndsAtEnd(src: Text, p: int, post: Text)
    requires At(src, p, post) && p + |post| == |src| && Spaces(post)
    ensures Ends(src, p)
  {
    if |post| > 0 {
      AtIndex(src, p, post, 0);
    }
  }

  lemma RunDone(src: Text, max: int, m: Machine)
    requires m.pos >= |src|
    ensures Run(src, max, m) == Running(m)
  {}
}
