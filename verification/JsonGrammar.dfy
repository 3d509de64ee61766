/** The grammar of RFC 8259 (sections 2 to 7) and the tokens each text stands for. */
module JsonGrammar {
  import opened Radix
  import opened JsonTokenizer

  // ---------- grammar ----------

  predicate Spaces(w: Text) {
    forall i :: 0 <= i < |w| ==> Space(w[i])
  }

  predicate Digit(c: byte) {
    0x30 <= c <= 0x39
  }

  function DigitRun(s: Text): (n: nat)
    ensures n <= |s| && forall i :: 0 <= i < n ==> Digit(s[i])
  {
    if |s| > 0 && Digit(s[0]) then 1 + DigitRun(s[1..]) else 0
  }

  const TRUE: Text := [0x74, 0x72, 0x75, 0x65]
  const FALSE: Text := [0x66, 0x61, 0x6c, 0x73, 0x65]
  const NULL: Text := [0x6e, 0x75, 0x6c, 0x6c]

  /** Section 3: true, false and null. */
  predicate IsLiteral(s: Text) {
    s == TRUE || s == FALSE || s == NULL
  }

  /** [ exp ] */
  predicate IsExponent(s: Text) {
    s == [] || ((s[0] == 0x65 || s[0] == 0x45) &&
      var d := if |s| > 1 && (s[1] == 0x2b || s[1] == 0x2d) then s[2..] else s[1..];
      |d| > 0 && DigitRun(d) == |d|)
  }

  /** [ frac ] [ exp ] */
  predicate IsFraction(s: Text) {
    if |s| > 0 && s[0] == 0x2e then
      var n := DigitRun(s[1..]);
      n > 0 && IsExponent(s[1 + n..])
    else
      IsExponent(s)
  }

  /** Section 6: [ minus ] int [ frac ] [ exp ], without leading zeros. */
  predicate IsNumber(s: Text) {
    var u := if |s| > 0 && s[0] == 0x2d then s[1..] else s;
    var n := DigitRun(u);
    n > 0 && (u[0] == 0x30 ==> n == 1) && IsFraction(u[n..])
  }

  /** Section 7: the characters between the quotes, of any encoding that keeps ASCII bytes. */
  predicate Chars(s: Text)
    decreases |s|
  {
    if |s| == 0 then true
    else if s[0] == BACKSLASH then
      && |s| >= 2
      && (if s[1] == 0x75 then |s| >= 6 && (forall i :: 2 <= i < 6 ==> HexDigit(s[i])) && Chars(s[6..])
          else SimpleEscape(s[1]) && Chars(s[2..]))
    else s[0] >= 0x20 && s[0] != QUOTE && Chars(s[1..])
  }

  /** Parse trees with their white space. */
  datatype Value = Scalar(text: Text) | Quoted(raw: Text) | Arr(gap: Text, items: Items) | Obj(gap: Text, members: Members)
  datatype Items = NoItems | Item(pre: Text, value: Value, post: Text, rest: Items)
  datatype Members = NoMembers
    | Member(pre: Text, key: Text, beforeColon: Text, afterColon: Text, value: Value, post: Text, rest: Members)

  predicate ValidValue(v: Value) {
    match v
    case Scalar(text) => IsLiteral(text) || IsNumber(text)
    case Quoted(raw) => Chars(raw)
    case Arr(gap, items) => Spaces(gap) && ValidItems(items)
    case Obj(gap, members) => Spaces(gap) && ValidMembers(members)
  }

  predicate ValidItems(items: Items) {
    match items
    case NoItems => true
    case Item(pre, value, post, rest) => Spaces(pre) && ValidValue(value) && Spaces(post) && ValidItems(rest)
  }

  predicate ValidMembers(members: Members) {
    match members
    case NoMembers => true
    case Member(pre, key, beforeColon, afterColon, value, post, rest) =>
      && Spaces(pre) && Chars(key) && Spaces(beforeColon) && Spaces(afterColon) && ValidValue(value) && Spaces(post)
      && ValidMembers(rest)
  }

  // ---------- text ----------

  function Render(v: Value): (t: Text)
    ensures |t| >= 1 || v.Scalar?
    decreases v, 0
  {
    match v
    case Scalar(text) => text
    case Quoted(raw) => [QUOTE] + raw + [QUOTE]
    case Arr(gap, items) => [OPEN_BRACKET] + (if items.NoItems? then gap else RenderItems(items)) + [CLOSE_BRACKET]
    case Obj(gap, members) => [OPEN_BRACE] + (if members.NoMembers? then gap else RenderMembers(members)) + [CLOSE_BRACE]
  }

  function RenderItems(items: Items): Text
    decreases items, 0
  {
    match items
    case NoItems => []
    case Item(pre, value, post, rest) => pre + (Render(value) + (post + MoreItems(rest)))
  }

  function MoreItems(items: Items): Text
    decreases items, 1
  {
    if items.NoItems? then [] else [COMMA] + RenderItems(items)
  }

  function RenderMembers(members: Members): Text
    decreases members, 0
  {
    match members
    case NoMembers => []
    case Member(pre, key, beforeColon, afterColon, value, post, rest) =>
      pre + (([QUOTE] + key + [QUOTE]) + (beforeColon + ([COLON] + (afterColon + (Render(value) + (post + MoreMembers(rest)))))))
  }

  function MoreMembers(members: Members): Text
    decreases members, 1
  {
    if members.NoMembers? then [] else [COMMA] + RenderMembers(members)
  }

  // ---------- tokens ----------

  function Count(v: Value): nat {
    match v
    case Scalar(_) => 1
    case Quoted(_) => 1
    case Arr(_, items) => 1 + CountItems(items)
    case Obj(_, members) => 1 + CountMembers(members)
  }

  function CountItems(items: Items): nat {
    match items
    case NoItems => 0
    case Item(_, value, _, rest) => Count(value) + CountItems(rest)
  }

  function CountMembers(members: Members): nat {
    match members
    case NoMembers => 0
    case Member(_, _, _, _, value, _, rest) => 1 + Count(value) + CountMembers(rest)
  }

  function ItemCount(items: Items): nat {
    match items
    case NoItems => 0
    case Item(_, _, _, rest) => 1 + ItemCount(rest)
  }

  function MemberCount(members: Members): nat {
    match members
    case NoMembers => 0
    case Member(_, _, _, _, _, _, rest) => 1 + MemberCount(rest)
  }

  predicate IsScalar(v: Value) {
    v.Scalar? || v.Quoted?
  }

  /** The preorder of the tree: v starts at text position `at` and gets token index i under parent p. */
  function Tokens(v: Value, at: int, i: nat, p: int): (toks: seq<Tok>)
    ensures |toks| == Count(v)
    decreases v, 0
  {
    match v
    case Scalar(text) => [Tok(Primitive, at, at + |text|, 0, p)]
    case Quoted(raw) => [Tok(Str, at + 1, at + 1 + |raw|, 0, p)]
    case Arr(_, items) => [Tok(Array, at, at + |Render(v)|, ItemCount(items), p)] + ItemTokens(items, at + 1, i + 1, i)
    case Obj(_, members) => [Tok(Object, at, at + |Render(v)|, MemberCount(members), p)] + MemberTokens(members, at + 1, i + 1, i)
  }

  function ItemTokens(items: Items, at: int, i: nat, arr: int): (toks: seq<Tok>)
    ensures |toks| == CountItems(items)
    decreases items, 0
  {
    match items
    case NoItems => []
    case Item(pre, value, post, rest) =>
      Tokens(value, at + |pre|, i, arr) + ItemTokens(rest, at + |pre| + |Render(value)| + |post| + 1, i + Count(value), arr)
  }

  /** Text position of the first member's value. */
  function ValueAt(m: Members, at: int): int
    requires m.Member?
  {
    at + |m.pre| + |m.key| + 2 + |m.beforeColon| + 1 + |m.afterColon|
  }

  /** Text position of the members after the first. */
  function RestAt(m: Members, at: int): int
    requires m.Member?
  {
    ValueAt(m, at) + |Render(m.value)| + |m.post| + 1
  }

  /** Each key is parented to the object and each value to its key. */
  function MemberTokens(members: Members, at: int, i: nat, obj: int): (toks: seq<Tok>)
    ensures |toks| == CountMembers(members)
    decreases members, 0
  {
    match members
    case NoMembers => []
    case Member(pre, key, beforeColon, afterColon, value, post, rest) =>
      [Tok(Str, at + |pre| + 1, at + |pre| + 1 + |key|, if IsScalar(value) then 1 else 0, obj)]
      + Tokens(value, ValueAt(members, at), i + 1, i)
      + MemberTokens(rest, RestAt(members, at), i + 1 + Count(value), obj)
  }

  // ---------- scanning a span of text ----------

  ghost predicate At(src: Text, p: int, t: Text) {
    0 <= p && p + |t| <= |src| && src[p..p + |t|] == t
  }

  lemma AtSplit(src: Text, p: int, s: Text, t: Text)
    requires At(src, p, s + t)
    ensures At(src, p, s) && At(src, p + |s|, t)
  {
    assert src[p..p + |s|] == (s + t)[..|s|];
    assert src[p + |s|..p + |s| + |t|] == (s + t)[|s|..];
  }

  lemma AtIndex(src: Text, p: int, t: Text, k: int)
    requires At(src, p, t) && 0 <= k < |t|
    ensures p + k < |src| && src[p + k] == t[k]
  {
    assert src[p..p + |t|][k] == t[k];
  }

  /** Nothing of a primitive continues at p. */
  ghost predicate Ends(src: Text, p: int) {
    p == |src| || (0 <= p < |src| && Delimiter(src[p]))
  }

  lemma {:induction false} RunSpaces(src: Text, max: int, m: Machine, w: Text)
    requires At(src, m.pos, w) && Spaces(w)
    ensures Run(src, max, m) == Run(src, max, m.(pos := m.pos + |w|))
    decreases |w|
  {
    if |w| > 0 {
      AtIndex(src, m.pos, w, 0);
      assert w == [w[0]] + w[1..];
      AtSplit(src, m.pos, [w[0]], w[1..]);
      assert Step(src, max, m) == Running(m.(pos := m.pos + 1));
      RunSpaces(src, max, m.(pos := m.pos + 1), w[1..]);
    }
  }

  lemma {:induction false} ScanFourHex(src: Text, p: nat, n: nat)
    requires p + n <= |src| && forall i :: p <= i < p + n ==> HexDigit(src[i])
    ensures ScanHex(src, p, n) == Stop(p + n)
    decreases n
  {
    if n > 0 {
      ScanFourHex(src, p + 1, n - 1);
    }
  }

  /** String contents of the grammar are scanned up to the closing quote. */
  lemma {:induction false} ScanChars(src: Text, p: nat, raw: Text)
    requires At(src, p, raw) && Chars(raw) && p + |raw| < |src| && src[p + |raw|] == QUOTE
    ensures ScanString(src, p) == Stop(p + |raw|)
    decreases |raw|
  {
    if |raw| > 0 {
      AtIndex(src, p, raw, 0);
      if raw[0] == BACKSLASH {
        AtIndex(src, p, raw, 1);
        var n := if raw[1] == 0x75 then 6 else 2;
        assert raw == raw[..n] + raw[n..];
        AtSplit(src, p, raw[..n], raw[n..]);
        if n == 6 {
          forall i | p + 2 <= i < p + 6
            ensures HexDigit(src[i])
          {
            AtIndex(src, p, raw, i - p);
            assert HexDigit(raw[i - p]);
          }
          ScanFourHex(src, p + 2, 4);
        }
        ScanChars(src, p + n, raw[n..]);
      } else {
        assert raw == raw[..1] + raw[1..];
        AtSplit(src, p, raw[..1], raw[1..]);
        ScanChars(src, p + 1, raw[1..]);
      }
    }
  }

  lemma {:induction false} HexScanned(src: Text, p: nat, n: nat)
    requires ScanHex(src, p, n).Stop?
    ensures p + n <= |src| || n == 0
    ensures forall i :: p <= i < p + n && i < |src| ==> HexDigit(src[i])
    decreases n
  {
    if n > 0 {
      HexScanned(src, p + 1, n - 1);
    }
  }

  /** Conversely, whatever the scanner accepts between quotes are string contents of the grammar. */
  lemma {:induction false} ScannedChars(src: Text, p: nat)
    requires p <= |src| && ScanString(src, p).Stop?
    ensures var e := ScanString(src, p).at; p <= e < |src| && Chars(src[p..e])
    decreases |src| - p
  {
    var e := ScanString(src, p).at;
    if src[p] == BACKSLASH {
      var n := if src[p + 1] == 0x75 then 6 else 2;
      if n == 6 {
        HexScanned(src, p + 2, 4);
      }
      ScannedChars(src, p + n);
      assert src[p..e][n..] == src[p + n..e];
    } else if src[p] != QUOTE {
      ScannedChars(src, p + 1);
      assert src[p..e][1..] == src[p + 1..e];
    }
  }

  // ---------- scalars ----------

  /** A character a number or literal may consist of. */
  predicate Plain(c: byte) {
    Digit(c) || c == 0x2b || c == 0x2d || c == 0x2e || 0x61 <= c <= 0x7a || c == 0x45
  }

  predicate AllPlain(s: Text) {
    forall i :: 0 <= i < |s| ==> Plain(s[i])
  }

  lemma ExponentPlain(s: Text)
    requires IsExponent(s)
    ensures AllPlain(s)
  {
    if s != [] {
      var k := if |s| > 1 && (s[1] == 0x2b || s[1] == 0x2d) then 2 else 1;
      forall i | k <= i < |s|
        ensures Plain(s[i])
      {
        assert Digit(s[k..][i - k]);
      }
    }
  }

  lemma FractionPlain(s: Text)
    requires IsFraction(s)
    ensures AllPlain(s)
  {
    if |s| > 0 && s[0] == 0x2e {
      var n := DigitRun(s[1..]);
      ExponentPlain(s[1 + n..]);
      forall i | 0 < i < |s|
        ensures Plain(s[i])
      {
        if i < 1 + n {
          assert Digit(s[1..][i - 1]);
        } else {
          assert Plain(s[1 + n..][i - 1 - n]);
        }
      }
    } else {
      ExponentPlain(s);
    }
  }

  lemma NumberPlain(s: Text)
    requires IsNumber(s)
    ensures |s| > 0 && AllPlain(s)
  {
    var k := if |s| > 0 && s[0] == 0x2d then 1 else 0;
    var u := s[k..];
    var n := DigitRun(u);
    FractionPlain(u[n..]);
    forall i | k <= i < |s|
      ensures Plain(s[i])
    {
      assert s[i] == u[i - k];
      if i - k >= n {
        assert Plain(u[n..][i - k - n]);
      }
    }
  }

  lemma {:induction false} ScanPlain(src: Text, p: nat, t: Text)
    requires At(src, p, t) && AllPlain(t) && Ends(src, p + |t|)
    ensures ScanPrimitive(src, p) == Stop(p + |t|)
    decreases |t|
  {
    if |t| > 0 {
      AtIndex(src, p, t, 0);
      assert Plain(t[0]);
      assert t == t[..1] + t[1..];
      AtSplit(src, p, t[..1], t[1..]);
      ScanPlain(src, p + 1, t[1..]);
    }
  }
}
