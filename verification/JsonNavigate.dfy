/** Member and element lookup over the token array. */
module JsonNavigate {
  import opened Options
  import opened JsonTokenizer
  import opened JsonStructure
  import opened JsonGrammar
  import opened JsonComplete

  /** hlm_json_doc: a source text and its tokens. */
  datatype Doc = Doc(src: Text, toks: seq<Tok>)

  predicate Spanned(doc: Doc) {
    forall i :: 0 <= i < |doc.toks| ==> 0 <= doc.toks[i].start <= doc.toks[i].end <= |doc.src|
  }

  /** The raw text of a token, escapes included. */
  function Raw(doc: Doc, i: int): Text
    requires Spanned(doc) && 0 <= i < |doc.toks|
  {
    doc.src[doc.toks[i].start..doc.toks[i].end]
  }

  /** First token from j on whose parent is p, or -1. */
  function NextChild(toks: seq<Tok>, p: int, j: nat): int
    decreases |toks| - j
  {
    if j >= |toks| then -1 else if toks[j].parent == p then j else NextChild(toks, p, j + 1)
  }

  /** Child number n of p from j on, or -1. */
  function NthChild(toks: seq<Tok>, p: int, j: nat, n: int): int
    decreases |toks| - j
  {
    if j >= |toks| then -1
    else if toks[j].parent == p then (if n == 0 then j else NthChild(toks, p, j + 1, n - 1))
    else NthChild(toks, p, j + 1, n)
  }

  predicate IsKey(doc: Doc, obj: int, key: Text, j: int)
    requires Spanned(doc) && 0 <= j < |doc.toks|
  {
    doc.toks[j].parent == obj && doc.toks[j].kind == Str && Raw(doc, j) == key
  }

  /** First key token from j on that matches, or -1. */
  function FindKey(doc: Doc, obj: int, key: Text, j: nat): (r: int)
    requires Spanned(doc)
    ensures r == -1 || j <= r < |doc.toks|
    decreases |doc.toks| - j
  {
    if j >= |doc.toks| then -1 else if IsKey(doc, obj, key, j) then j else FindKey(doc, obj, key, j + 1)
  }

  function FindMember(doc: Doc, obj: int, key: Text): int
    requires Spanned(doc)
  {
    if KindAt(doc.toks, obj) != Object then -1
    else
      var k := FindKey(doc, obj, key, obj + 1);
      if k < 0 then -1 else NextChild(doc.toks, k, k + 1)
  }

  function FindElement(doc: Doc, arr: int, idx: int): int {
    if KindAt(doc.toks, arr) != Array then -1 else NthChild(doc.toks, arr, arr + 1, idx)
  }

  /** hlm_json_member: the value of the first member whose raw key is `key`, or -1. */
  method Member(doc: Doc, obj: int, key: Text) returns (r: int)
    requires Spanned(doc)
    ensures r == FindMember(doc, obj, key)
  {
    if obj < 0 || obj >= |doc.toks| {
      return -1;
    }
    if doc.toks[obj].kind != Object {
      return -1;
    }
    var i := obj + 1;
    while i < |doc.toks|
      invariant obj < i <= |doc.toks|
      invariant FindKey(doc, obj, key, i) == FindKey(doc, obj, key, obj + 1)
    {
      var t := doc.toks[i];
      if t.parent == obj && t.kind == Str {
        if t.end - t.start == |key| && doc.src[t.start..t.end] == key {
          var j := i + 1;
          while j < |doc.toks|
            invariant i < j <= |doc.toks|
            invariant NextChild(doc.toks, i, j) == NextChild(doc.toks, i, i + 1)
          {
            if doc.toks[j].parent == i {
              return j;
            }
            j := j + 1;
          }
          return -1;
        }
      }
      i := i + 1;
    }
    return -1;
  }

  /** hlm_json_element: element number idx, or -1. */
  method Element(doc: Doc, arr: int, idx: int) returns (r: int)
    ensures r == FindElement(doc, arr, idx)
  {
    if arr < 0 || arr >= |doc.toks| {
      return -1;
    }
    if doc.toks[arr].kind != Array {
      return -1;
    }
    var n := 0;
    var i := arr + 1;
    while i < |doc.toks|
      invariant arr < i <= |doc.toks|
      invariant NthChild(doc.toks, arr, i, idx - n) == NthChild(doc.toks, arr, arr + 1, idx)
    {
      if doc.toks[i].parent == arr {
        if n == idx {
          return i;
        }
        n := n + 1;
      }
      i := i + 1;
    }
    return -1;
  }

  // ---------- elements of any accepted text ----------

  lemma {:induction false} NthExact(toks: seq<Tok>, p: int, j: nat, n: int)
    requires j <= |toks|
    ensures var r := NthChild(toks, p, j, n);
            && (r == -1 <==> !(0 <= n < Children(toks, p, |toks|) - Children(toks, p, j)))
            && (r != -1 ==> j <= r < |toks| && toks[r].parent == p && Children(toks, p, r) == Children(toks, p, j) + n)
    decreases |toks| - j
  {
    ChildrenGrow(toks, p, j, |toks|);
    if j < |toks| {
      assert Children(toks, p, j + 1) == Children(toks, p, j) + if toks[j].parent == p then 1 else 0;
      ChildrenGrow(toks, p, j + 1, |toks|);
      NthExact(toks, p, j + 1, if toks[j].parent == p then n - 1 else n);
    }
  }

  lemma {:induction false} ChildrenGrow(toks: seq<Tok>, p: int, j: nat, n: nat)
    requires j <= n <= |toks|
    ensures Children(toks, p, j) <= Children(toks, p, n)
  {
    if j < n {
      ChildrenGrow(toks, p, j, n - 1);
    }
  }

  /** In every well-formed token array element idx exists exactly for 0 <= idx < size, and is the child with idx children before it. */
  lemma ElementExact(doc: Doc, arr: int, idx: int)
    requires WellFormed(doc.src, doc.toks) && KindAt(doc.toks, arr) == Array
    ensures var r := FindElement(doc, arr, idx);
            && (r != -1 <==> 0 <= idx < doc.toks[arr].size)
            && (r != -1 ==> arr < r < |doc.toks| && doc.toks[r].parent == arr && Children(doc.toks, arr, r) == idx)
  {
    hide WellFormed, Children;
    assert Linked(doc.toks) && doc.toks[arr].size == Children(doc.toks, arr, |doc.toks|) by { SizeAt(doc, arr); }
    NthExact(doc.toks, arr, arr + 1, idx);
    NoEarlyChildren(doc.toks, arr, arr + 1);
  }

  lemma SizeAt(doc: Doc, i: int)
    requires WellFormed(doc.src, doc.toks) && Container(KindAt(doc.toks, i))
    ensures Linked(doc.toks) && doc.toks[i].size == Children(doc.toks, i, |doc.toks|)
  {}

  // ---------- trees inside a token array ----------

  ghost predicate TokensAt(toks: seq<Tok>, j: nat, s: seq<Tok>) {
    j + |s| <= |toks| && toks[j..j + |s|] == s
  }

  lemma TokensSplit(toks: seq<Tok>, j: nat, s: seq<Tok>, t: seq<Tok>)
    requires TokensAt(toks, j, s + t)
    ensures TokensAt(toks, j, s) && TokensAt(toks, j + |s|, t)
  {
    assert toks[j..j + |s|] == (s + t)[..|s|];
    assert toks[j + |s|..j + |s| + |t|] == (s + t)[|s|..];
  }

  lemma TokensIndex(toks: seq<Tok>, j: nat, s: seq<Tok>)
    requires TokensAt(toks, j, s)
    ensures forall x :: j <= x < j + |s| ==> toks[x] == s[x - j]
  {
    forall x | j <= x < j + |s|
      ensures toks[x] == s[x - j]
    {
      assert toks[j..j + |s|][x - j] == toks[x];
    }
  }

  lemma TokensFit(toks: seq<Tok>, j: nat, s: seq<Tok>)
    requires TokensAt(toks, j, s)
    ensures j + |s| <= |toks|
  {}

  /** A subtree: its value, text position and token index. */
  datatype Place = Nowhere | Place(v: Value, at: int, i: int)

  /** The tokens of v start at index i, under parent p, and no later token belongs to them. */
  ghost predicate Embedded(doc: Doc, v: Value, at: int, i: nat, p: int) {
    && TokensAt(doc.toks, i, Tokens(v, at, i, p)) && At(doc.src, at, Render(v)) && p < i
    && forall x :: i + Count(v) <= x < |doc.toks| ==> !(i <= doc.toks[x].parent < i + Count(v))
  }

  /** A parent link of a block of tokens [i, k) below p. */
  predicate Under(parent: int, p: int, i: int, k: int) {
    parent == p || i <= parent < k
  }

  /** The first token of a value has its parent outside, all others inside. */
  lemma {:induction false} ParentsInside(v: Value, at: int, i: nat, p: int)
    ensures Count(v) > 0 && Tokens(v, at, i, p)[0].parent == p
    ensures forall x :: 0 < x < Count(v) ==> i <= Tokens(v, at, i, p)[x].parent < i + Count(v)
    decreases v
  {
    match v
    case Scalar(_) =>
    case Quoted(_) =>
    case Arr(_, items) => ItemParents(items, at + 1, i + 1, i);
    case Obj(_, members) => MemberParents(members, at + 1, i + 1, i);
  }

  lemma {:induction false} ItemParents(items: Items, at: int, i: nat, arr: nat)
    requires arr < i
    ensures forall x :: 0 <= x < CountItems(items) ==> Under(ItemTokens(items, at, i, arr)[x].parent, arr, i, i + CountItems(items))
    decreases items
  {
    if items.Item? {
      ParentsInside(items.value, at + |items.pre|, i, arr);
      ItemParents(items.rest, at + |items.pre| + |Render(items.value)| + |items.post| + 1, i + Count(items.value), arr);
    }
  }

  lemma {:induction false} MemberParents(ms: Members, at: int, i: nat, obj: nat)
    requires obj < i
    ensures forall x :: 0 <= x < CountMembers(ms) ==> Under(MemberTokens(ms, at, i, obj)[x].parent, obj, i, i + CountMembers(ms))
    decreases ms
  {
    if ms.Member? {
      ParentsInside(ms.value, ValueAt(ms, at), i + 1, i);
      MemberParents(ms.rest, RestAt(ms, at), i + 1 + Count(ms.value), obj);
    }
  }

  lemma {:induction false} SkipNth(toks: seq<Tok>, p: int, j: nat, k: nat, n: int)
    requires j <= k <= |toks| && forall x :: j <= x < k ==> toks[x].parent != p
    ensures NthChild(toks, p, j, n) == NthChild(toks, p, k, n)
    decreases k - j
  {
    if j < k {
      SkipNth(toks, p, j + 1, k, n);
    }
  }

  /** Tokens j.. hold the items of array arr, and nothing after them belongs to arr or to them. */
  ghost predicate ItemBlock(doc: Doc, items: Items, at: int, j: nat, arr: nat) {
    && TokensAt(doc.toks, j, ItemTokens(items, at, j, arr)) && At(doc.src, at, RenderItems(items)) && arr < j
    && forall x :: j + CountItems(items) <= x < |doc.toks| ==> !(arr <= doc.toks[x].parent < j + CountItems(items))
  }

  /** Item number n of a list whose first token has index j. */
  function ItemPlace(items: Items, at: int, j: nat, n: int): Place {
    match items
    case NoItems => Nowhere
    case Item(pre, value, post, rest) =>
      if n == 0 then Place(value, at + |pre|, j)
      else ItemPlace(rest, at + |pre| + |Render(value)| + |post| + 1, j + Count(value), n - 1)
  }

  /** Text position after an item and its comma. */
  function ItemEnd(items: Items, at: int): int
    requires items.Item?
  {
    at + |items.pre| + |Render(items.value)| + |items.post| + 1
  }

  lemma ItemText(src: Text, items: Items, at: int)
    requires items.Item? && At(src, at, RenderItems(items))
    ensures At(src, at + |items.pre|, Render(items.value))
    ensures items.rest.Item? ==> At(src, ItemEnd(items, at), RenderItems(items.rest))
  {
    hide At, Render;
    var Item(pre, value, post, rest) := items;
    AtSplit(src, at, pre, Render(value) + (post + MoreItems(rest)));
    AtSplit(src, at + |pre|, Render(value), post + MoreItems(rest));
    AtSplit(src, at + |pre| + |Render(value)|, post, MoreItems(rest));
    if rest.Item? {
      AtSplit(src, ItemEnd(items, at) - 1, [COMMA], RenderItems(rest));
    }
  }

  lemma ItemBlockSplit(doc: Doc, items: Items, at: int, j: nat, arr: nat)
    requires ItemBlock(doc, items, at, j, arr) && items.Item?
    ensures Embedded(doc, items.value, at + |items.pre|, j, arr)
    ensures items.rest.Item? ==> ItemBlock(doc, items.rest, ItemEnd(items, at), j + Count(items.value), arr)
    ensures doc.toks[j].parent == arr && forall x :: j < x < j + Count(items.value) ==> doc.toks[x].parent != arr
  {
    hide Render, RenderItems, Tokens, Count, CountItems, ItemTokens, At, TokensAt, Under, ValidValue;
    var value, rest, k := items.value, items.rest, j + Count(items.value);
    var first, more := Tokens(value, at + |items.pre|, j, arr), ItemTokens(rest, ItemEnd(items, at), k, arr);
    ItemTokensUnfold(items, at, j, arr);
    ItemText(doc.src, items, at);
    ParentsInside(value, at + |items.pre|, j, arr);
    ItemParents(rest, ItemEnd(items, at), k, arr);
    BlockFits(doc, items, at, j, arr);
    TokensSplit(doc.toks, j, first, more);
    TokensIndex(doc.toks, j, first);
    TokensIndex(doc.toks, k, more);
    BlockParents(doc.toks, arr, j, k, first, more);
  }

  /** Parent links seen through the tokens of a block. */
  lemma BlockParents(toks: seq<Tok>, p: int, j: nat, k: nat, first: seq<Tok>, more: seq<Tok>)
    requires k == j + |first| && k + |more| <= |toks| && p < j
    requires forall x :: j <= x < k ==> toks[x] == first[x - j]
    requires forall x :: k <= x < k + |more| ==> toks[x] == more[x - k]
    requires forall x :: 0 < x < |first| ==> j <= first[x].parent < k
    requires forall x :: 0 <= x < |more| ==> Under(more[x].parent, p, k, k + |more|)
    requires forall x :: k + |more| <= x < |toks| ==> !(p <= toks[x].parent < k + |more|)
    ensures forall x :: j < x < k ==> toks[x].parent != p
    ensures forall x :: k <= x < |toks| ==> !(j <= toks[x].parent < k)
  {
    forall x | k <= x < |toks|
      ensures !(j <= toks[x].parent < k)
    {
      if x < k + |more| {
        assert Under(more[x - k].parent, p, k, k + |more|);
      }
    }
  }

  lemma ItemTokensUnfold(items: Items, at: int, j: nat, arr: nat)
    requires items.Item?
    ensures CountItems(items) == Count(items.value) + CountItems(items.rest)
    ensures ItemTokens(items, at, j, arr) == Tokens(items.value, at + |items.pre|, j, arr)
      + ItemTokens(items.rest, ItemEnd(items, at), j + Count(items.value), arr)
  {
    hide Render, Tokens;
  }

  /** Searching the block finds item number n. */
  lemma {:induction false} ItemFound(doc: Doc, items: Items, at: int, j: nat, arr: nat, n: int)
    requires ItemBlock(doc, items, at, j, arr) && items.Item?
    ensures var r := NthChild(doc.toks, arr, j, n);
            if 0 <= n < ItemCount(items) then
              var place := ItemPlace(items, at, j, n);
              place.Place? && r == place.i && place.i >= 0 && Embedded(doc, place.v, place.at, place.i, arr)
            else r == -1
    decreases items
  {
    hide Render, RenderItems, Tokens, ItemTokens, At, TokensAt;
    ItemBlockSplit(doc, items, at, j, arr);
    ParentsInside(items.value, at + |items.pre|, j, arr);
    var k := j + Count(items.value);
    assert CountItems(items) == Count(items.value) + CountItems(items.rest);
    BlockFits(doc, items, at, j, arr);
    SkipNth(doc.toks, arr, j + 1, k, n - 1);
    SkipNth(doc.toks, arr, j + 1, k, n);
    if items.rest.Item? {
      ItemFound(doc, items.rest, ItemEnd(items, at), k, arr, n - 1);
    } else {
      assert ItemCount(items.rest) == 0;
      SkipNth(doc.toks, arr, k, |doc.toks|, n - 1);
    }
  }

  lemma BlockFits(doc: Doc, items: Items, at: int, j: nat, arr: nat)
    requires ItemBlock(doc, items, at, j, arr)
    ensures j + CountItems(items) <= |doc.toks|
  {}

  /** hlm_json_element on the tokens of an array value. */
  lemma ElementFound(doc: Doc, v: Value, at: int, i: nat, p: int, n: int)
    requires Embedded(doc, v, at, i, p) && v.Arr?
    ensures var r := FindElement(doc, i, n);
            if 0 <= n < ItemCount(v.items) then
              var place := ItemPlace(v.items, at + 1, i + 1, n);
              place.Place? && r == place.i && place.i >= 0 && Embedded(doc, place.v, place.at, place.i, i)
            else r == -1
  {
    hide Tokens, ItemTokens, Embedded, ItemPlace, RenderItems, ItemBlock, Count, Render, At;
    ArrayBlock(doc, v, at, i, p);
    if v.items.Item? {
      ItemFound(doc, v.items, at + 1, i + 1, i, n);
    } else {
      SkipNth(doc.toks, i, i + 1, |doc.toks|, n);
    }
  }

  lemma ArrayUnfold(v: Value, at: int, i: nat, p: int)
    requires v.Arr?
    ensures Count(v) == 1 + CountItems(v.items)
    ensures Tokens(v, at, i, p) == [Tok(Array, at, at + |Render(v)|, ItemCount(v.items), p)] + ItemTokens(v.items, at + 1, i + 1, i)
    ensures v.items.Item? ==> Render(v) == [OPEN_BRACKET] + RenderItems(v.items) + [CLOSE_BRACKET]
    ensures v.items.NoItems? ==> CountItems(v.items) == 0
  {
    hide RenderItems, ItemTokens;
  }

  lemma ArrayBlock(doc: Doc, v: Value, at: int, i: nat, p: int)
    requires Embedded(doc, v, at, i, p) && v.Arr?
    ensures i < |doc.toks| && doc.toks[i].kind == Array
    ensures v.items.Item? ==> ItemBlock(doc, v.items, at + 1, i + 1, i)
    ensures v.items.NoItems? ==> forall x :: i + 1 <= x < |doc.toks| ==> doc.toks[x].parent != i
  {
    hide Tokens, ItemTokens, Render, RenderItems, Count, CountItems, At, TokensAt;
    var head := Tok(Array, at, at + |Render(v)|, ItemCount(v.items), p);
    var toks, inner := ItemTokens(v.items, at + 1, i + 1, i), RenderItems(v.items);
    ArrayUnfold(v, at, i, p);
    TokensSplit(doc.toks, i, [head], toks);
    TokensIndex(doc.toks, i, [head]);
    TokensFit(doc.toks, i, [head]);
    if v.items.Item? {
      AtSplit(doc.src, at, [OPEN_BRACKET] + inner, [CLOSE_BRACKET]);
      AtSplit(doc.src, at, [OPEN_BRACKET], inner);
    }
  }

  // ---------- members of an object ----------

  /** Tokens j.. hold the members of object obj, and nothing after them belongs to obj or to them. */
  ghost predicate MemberBlock(doc: Doc, ms: Members, at: int, j: nat, obj: nat) {
    && TokensAt(doc.toks, j, MemberTokens(ms, at, j, obj)) && At(doc.src, at, RenderMembers(ms)) && obj < j
    && forall x :: j + CountMembers(ms) <= x < |doc.toks| ==> !(obj <= doc.toks[x].parent < j + CountMembers(ms))
  }

  /** The value of the first member with the raw key `key`. */
  function MemberPlace(ms: Members, at: int, j: nat, key: Text): Place {
    match ms
    case NoMembers => Nowhere
    case Member(_, k, _, _, value, _, rest) =>
      if k == key then Place(value, ValueAt(ms, at), j + 1) else MemberPlace(rest, RestAt(ms, at), j + 1 + Count(value), key)
  }

  /** A key is found after its leading space, and the value after colon and space. */
  lemma KeyText(src: Text, at: int, pre: Text, key: Text, b: Text, a: Text, rest: Text)
    requires At(src, at, pre + (([QUOTE] + key + [QUOTE]) + (b + ([COLON] + (a + rest)))))
    ensures At(src, at + |pre| + 1, key) && At(src, at + |pre| + |key| + 2 + |b| + 1 + |a|, rest)
  {
    hide At;
    var quoted := [QUOTE] + key + [QUOTE];
    var p1 := at + |pre|;
    AtSplit(src, at, pre, quoted + (b + ([COLON] + (a + rest))));
    AtSplit(src, p1, quoted, b + ([COLON] + (a + rest)));
    AtSplit(src, p1, [QUOTE] + key, [QUOTE]);
    AtSplit(src, p1, [QUOTE], key);
    var p2 := p1 + |key| + 2;
    AtSplit(src, p2, b, [COLON] + (a + rest));
    AtSplit(src, p2 + |b|, [COLON], a + rest);
    AtSplit(src, p2 + |b| + 1, a, rest);
  }

  lemma MemberText(src: Text, ms: Members, at: int)
    requires ms.Member? && At(src, at, RenderMembers(ms))
    ensures At(src, at + |ms.pre| + 1, ms.key) && At(src, ValueAt(ms, at), Render(ms.value))
    ensures ms.rest.Member? ==> At(src, RestAt(ms, at), RenderMembers(ms.rest))
  {
    hide At, Render;
    var Member(pre, key, b, a, value, post, rest) := ms;
    var tail := post + MoreMembers(rest);
    KeyText(src, at, pre, key, b, a, Render(value) + tail);
    AtSplit(src, ValueAt(ms, at), Render(value), tail);
    AtSplit(src, ValueAt(ms, at) + |Render(value)|, post, MoreMembers(rest));
    if rest.Member? {
      AtSplit(src, RestAt(ms, at) - 1, [COMMA], RenderMembers(rest));
    }
  }

  lemma MemberTokensUnfold(ms: Members, at: int, j: nat, obj: nat)
    requires ms.Member?
    ensures CountMembers(ms) == 1 + Count(ms.value) + CountMembers(ms.rest)
    ensures var key := Tok(Str, at + |ms.pre| + 1, at + |ms.pre| + 1 + |ms.key|, if IsScalar(ms.value) then 1 else 0, obj);
            MemberTokens(ms, at, j, obj) == [key] + (Tokens(ms.value, ValueAt(ms, at), j + 1, j)
              + MemberTokens(ms.rest, RestAt(ms, at), j + 1 + Count(ms.value), obj))
  {
    hide Render, Tokens;
  }

  /** The key of the first member, and the tokens after it. */
  lemma MemberHead(doc: Doc, ms: Members, at: int, j: nat, obj: nat)
    requires MemberBlock(doc, ms, at, j, obj) && ms.Member?
    ensures j < |doc.toks| && doc.toks[j].parent == obj && doc.toks[j].kind == Str
    ensures doc.toks[j].start == at + |ms.pre| + 1 && doc.toks[j].end == at + |ms.pre| + 1 + |ms.key|
    ensures At(doc.src, at + |ms.pre| + 1, ms.key)
    ensures TokensAt(doc.toks, j + 1, Tokens(ms.value, ValueAt(ms, at), j + 1, j))
    ensures TokensAt(doc.toks, j + 1 + Count(ms.value), MemberTokens(ms.rest, RestAt(ms, at), j + 1 + Count(ms.value), obj))
  {
    hide Render, RenderMembers, Tokens, Count, CountMembers, MemberTokens, At, TokensAt, ValueAt, RestAt;
    var key := Tok(Str, at + |ms.pre| + 1, at + |ms.pre| + 1 + |ms.key|, if IsScalar(ms.value) then 1 else 0, obj);
    var first, more := Tokens(ms.value, ValueAt(ms, at), j + 1, j), MemberTokens(ms.rest, RestAt(ms, at), j + 1 + Count(ms.value), obj);
    MemberTokensUnfold(ms, at, j, obj);
    MemberText(doc.src, ms, at);
    TokensSplit(doc.toks, j, [key], first + more);
    TokensSplit(doc.toks, j + 1, first, more);
    TokensIndex(doc.toks, j, [key]);
    TokensFit(doc.toks, j, [key]);
  }

  lemma MemberBlockSplit(doc: Doc, ms: Members, at: int, j: nat, obj: nat)
    requires MemberBlock(doc, ms, at, j, obj) && ms.Member?
    ensures Embedded(doc, ms.value, ValueAt(ms, at), j + 1, j)
    ensures ms.rest.Member? ==> MemberBlock(doc, ms.rest, RestAt(ms, at), j + 1 + Count(ms.value), obj)
    ensures forall x :: j < x < j + 1 + Count(ms.value) && x < |doc.toks| ==> doc.toks[x].parent != obj
  {
    hide Render, RenderMembers, Tokens, Count, CountMembers, MemberTokens, At, TokensAt, Under, ValueAt, RestAt;
    var value, rest, i, k := ms.value, ms.rest, j + 1, j + 1 + Count(ms.value);
    var first, more := Tokens(value, ValueAt(ms, at), i, j), MemberTokens(rest, RestAt(ms, at), k, obj);
    MemberTokensUnfold(ms, at, j, obj);
    MemberText(doc.src, ms, at);
    ParentsInside(value, ValueAt(ms, at), i, j);
    MemberParents(rest, RestAt(ms, at), k, obj);
    MemberBlockFits(doc, ms, at, j, obj);
    MemberHead(doc, ms, at, j, obj);
    TokensIndex(doc.toks, i, first);
    TokensIndex(doc.toks, k, more);
    BlockParents(doc.toks, obj, i, k, first, more);
  }

  lemma MemberBlockFits(doc: Doc, ms: Members, at: int, j: nat, obj: nat)
    requires MemberBlock(doc, ms, at, j, obj)
    ensures j + CountMembers(ms) <= |doc.toks|
    ensures forall x :: j + CountMembers(ms) <= x < |doc.toks| ==> doc.toks[x].parent != obj
  {}

  lemma {:induction false} SkipKey(doc: Doc, obj: int, key: Text, j: nat, k: nat)
    requires Spanned(doc) && j <= k <= |doc.toks| && forall x :: j <= x < k ==> doc.toks[x].parent != obj
    ensures FindKey(doc, obj, key, j) == FindKey(doc, obj, key, k)
    decreases k - j
  {
    if j < k {
      SkipKey(doc, obj, key, j + 1, k);
    }
  }

  /** Searching the block finds the first matching key, and its value follows it. */
  lemma {:induction false} MemberInBlock(doc: Doc, ms: Members, at: int, j: nat, obj: nat, key: Text)
    requires Spanned(doc) && MemberBlock(doc, ms, at, j, obj) && ms.Member?
    ensures var k, place := FindKey(doc, obj, key, j), MemberPlace(ms, at, j, key);
            if place.Place? then
              && 0 <= k < |doc.toks| && place.i == k + 1 && Embedded(doc, place.v, place.at, place.i, k)
              && NextChild(doc.toks, k, k + 1) == k + 1
            else k == -1
    decreases ms
  {
    hide Render, RenderMembers, Tokens, MemberTokens, At, TokensAt, ValueAt, RestAt, Embedded, MemberBlock, Spanned, IsKey;
    MemberHead(doc, ms, at, j, obj);
    MemberBlockSplit(doc, ms, at, j, obj);
    MemberBlockFits(doc, ms, at, j, obj);
    MemberTokensUnfold(ms, at, j, obj);
    var k := j + 1 + Count(ms.value);
    RawKey(doc, j, ms.key);
    assert IsKey(doc, obj, key, j) <==> ms.key == key by { KeyIs(doc, obj, key, j); }
    if ms.key == key {
      ValueFollows(doc, ms.value, ValueAt(ms, at), j + 1, j);
    } else {
      SkipKey(doc, obj, key, j + 1, k);
      if ms.rest.Member? {
        MemberInBlock(doc, ms.rest, RestAt(ms, at), k, obj, key);
      } else {
        assert CountMembers(ms.rest) == 0;
        SkipKey(doc, obj, key, k, |doc.toks|);
      }
    }
  }

  lemma KeyIs(doc: Doc, obj: int, key: Text, j: nat)
    requires Spanned(doc) && j < |doc.toks| && doc.toks[j].parent == obj && doc.toks[j].kind == Str
    ensures IsKey(doc, obj, key, j) <==> Raw(doc, j) == key
  {}

  lemma RawKey(doc: Doc, j: nat, key: Text)
    requires Spanned(doc) && j < |doc.toks| && At(doc.src, doc.toks[j].start, key) && doc.toks[j].end == doc.toks[j].start + |key|
    ensures Raw(doc, j) == key
  {}

  lemma ValueFollows(doc: Doc, v: Value, at: int, i: nat, p: int)
    requires Embedded(doc, v, at, i, p)
    ensures i < |doc.toks| && doc.toks[i].parent == p && NextChild(doc.toks, p, i) == i
  {
    ParentsInside(v, at, i, p);
    hide Tokens, Render, Count;
    TokensIndex(doc.toks, i, Tokens(v, at, i, p));
  }

  lemma ObjectUnfold(v: Value, at: int, i: nat, p: int)
    requires v.Obj?
    ensures Count(v) == 1 + CountMembers(v.members)
    ensures Tokens(v, at, i, p) == [Tok(Object, at, at + |Render(v)|, MemberCount(v.members), p)] + MemberTokens(v.members, at + 1, i + 1, i)
    ensures v.members.Member? ==> Render(v) == [OPEN_BRACE] + RenderMembers(v.members) + [CLOSE_BRACE]
    ensures v.members.NoMembers? ==> CountMembers(v.members) == 0
  {
    hide RenderMembers, MemberTokens;
  }

  lemma ObjectBlock(doc: Doc, v: Value, at: int, i: nat, p: int)
    requires Embedded(doc, v, at, i, p) && v.Obj?
    ensures i < |doc.toks| && doc.toks[i].kind == Object
    ensures v.members.Member? ==> MemberBlock(doc, v.members, at + 1, i + 1, i)
    ensures v.members.NoMembers? ==> forall x :: i + 1 <= x < |doc.toks| ==> doc.toks[x].parent != i
  {
    hide Tokens, MemberTokens, Render, RenderMembers, Count, CountMembers, At, TokensAt;
    var head := Tok(Object, at, at + |Render(v)|, MemberCount(v.members), p);
    var toks, inner := MemberTokens(v.members, at + 1, i + 1, i), RenderMembers(v.members);
    ObjectUnfold(v, at, i, p);
    TokensSplit(doc.toks, i, [head], toks);
    TokensIndex(doc.toks, i, [head]);
    TokensFit(doc.toks, i, [head]);
    if v.members.Member? {
      AtSplit(doc.src, at, [OPEN_BRACE] + inner, [CLOSE_BRACE]);
      AtSplit(doc.src, at, [OPEN_BRACE], inner);
    }
  }

  /** hlm_json_member on the tokens of an object value: the value of the first member whose raw key matches. */
  lemma MemberFound(doc: Doc, v: Value, at: int, i: nat, p: int, key: Text)
    requires Spanned(doc) && Embedded(doc, v, at, i, p) && v.Obj?
    ensures var r, place := FindMember(doc, i, key), MemberPlace(v.members, at + 1, i + 1, key);
            if place.Place? then r == place.i && r > 0 && Embedded(doc, place.v, place.at, place.i, r - 1) else r == -1
  {
    hide Tokens, MemberTokens, Embedded, RenderMembers, FindKey, NextChild, MemberBlock, Spanned, Count, Render, At;
    ObjectBlock(doc, v, at, i, p);
    if v.members.Member? {
      MemberInBlock(doc, v.members, at + 1, i + 1, i, key);
    } else {
      SkipKey(doc, i, key, i + 1, |doc.toks|);
    }
  }

  /** The value of the first member with the raw key `key`, in the tree alone. */
  function Lookup(ms: Members, key: Text): Option<Value> {
    match ms
    case NoMembers => None
    case Member(_, k, _, _, value, _, rest) => if k == key then Some(value) else Lookup(rest, key)
  }

  lemma {:induction false} PlaceIsLookup(ms: Members, at: int, j: nat, key: Text)
    ensures var place := MemberPlace(ms, at, j, key); Lookup(ms, key) == if place.Place? then Some(place.v) else None
    decreases ms
  {
    hide Render, Count;
    if ms.Member? && ms.key != key {
      PlaceIsLookup(ms.rest, RestAt(ms, at), j + 1 + Count(ms.value), key);
    }
  }

  /** The kind of a value's own token, and the text of its token: a string's is what stands between the quotes. */
  lemma OwnToken(doc: Doc, v: Value, at: int, i: nat, p: int)
    requires Spanned(doc) && Embedded(doc, v, at, i, p)
    ensures i < |doc.toks| && (doc.toks[i].kind == Str <==> v.Quoted?)
    ensures Raw(doc, i) == if v.Quoted? then v.raw else Render(v)
  {
    ParentsInside(v, at, i, p);
    TokensIndex(doc.toks, i, Tokens(v, at, i, p));
    TokensFit(doc.toks, i, Tokens(v, at, i, p));
    FirstToken(v, at, i, p);
    hide Tokens, Render, Count, TokensAt;
    if v.Quoted? {
      assert At(doc.src, at, [QUOTE] + v.raw + [QUOTE]) by { QuotedText(v); }
      AtSplit(doc.src, at, [QUOTE] + v.raw, [QUOTE]);
      AtSplit(doc.src, at, [QUOTE], v.raw);
    }
  }

  lemma QuotedText(v: Value)
    requires v.Quoted?
    ensures Render(v) == [QUOTE] + v.raw + [QUOTE]
  {}

  lemma FirstToken(v: Value, at: int, i: nat, p: int)
    ensures Count(v) > 0
    ensures var t := Tokens(v, at, i, p)[0];
            if v.Quoted? then t.kind == Str && t.start == at + 1 && t.end == at + 1 + |v.raw|
            else t.kind != Str && t.start == at && t.end == at + |Render(v)|
  {
    hide RenderItems, RenderMembers;
  }

  /** A lookup in the text of an object finds the first member with the key, whatever surrounds it; there is no lookup
      in anything but an object. */
  lemma LookupInText(pre: Text, v: Value, post: Text, max: int, key: Text)
    requires Spaces(pre) && ValidValue(v) && Spaces(post)
    requires |Document(pre, v, post)| <= INT_MAX && Count(v) <= max
    ensures var src := Document(pre, v, post);
            && Tokenize(src, max).Running?
            && var doc := Doc(src, Tokenize(src, max).m.toks);
            && Spanned(doc)
            && var r, m := FindMember(doc, 0, key), if v.Obj? then Lookup(v.members, key) else None;
            && (m.None? ==> r == -1)
            && (m.Some? ==> 0 <= r < |doc.toks|)
            && (m.Some? ==> (doc.toks[r].kind == Str <==> m.value.Quoted?))
            && (m.Some? ==> Raw(doc, r) == if m.value.Quoted? then m.value.raw else Render(m.value))
  {
    hide Tokenize, Tokens, Render, Spaces, ValidValue, Count, Embedded, Lookup, MemberPlace, Document, FindKey, NextChild;
    DocumentEmbedded(pre, v, post, max);
    var doc := Doc(Document(pre, v, post), Tokenize(Document(pre, v, post), max).m.toks);
    if v.Obj? {
      MemberFound(doc, v, |pre|, 0, -1, key);
      var place := MemberPlace(v.members, |pre| + 1, 1, key);
      PlaceIsLookup(v.members, |pre| + 1, 1, key);
      if place.Place? {
        OwnToken(doc, place.v, place.at, place.i, place.i - 1);
      }
    } else {
      NotObject(doc, v, |pre|, 0, -1);
    }
  }

  lemma NotObject(doc: Doc, v: Value, at: int, i: nat, p: int)
    requires Embedded(doc, v, at, i, p) && !v.Obj?
    ensures KindAt(doc.toks, i) != Object
  {
    ParentsInside(v, at, i, p);
    TokensIndex(doc.toks, i, Tokens(v, at, i, p));
  }

  /** The whole tree of an accepted grammar text is embedded at token 0, so lookups can start there. */
  lemma DocumentEmbedded(pre: Text, v: Value, post: Text, max: int)
    requires Spaces(pre) && ValidValue(v) && Spaces(post)
    requires |Document(pre, v, post)| <= INT_MAX && Count(v) <= max
    ensures var src := Document(pre, v, post);
            && Tokenize(src, max).Running?
            && var doc := Doc(src, Tokenize(src, max).m.toks); Spanned(doc) && Embedded(doc, v, |pre|, 0, -1)
  {
    hide Tokenize, Tokens, Render, Spaces, ValidValue, Count, Labels;
    GrammarAccepted(pre, v, post, max);
    var src := Document(pre, v, post);
    AcceptedWellFormed(src, max);
    assert At(src, |pre|, Render(v)) by { AtSplit(src, 0, pre, Render(v) + post); AtSplit(src, |pre|, Render(v), post); }
  }
}
