/** The one-pass JSON tokenizer: tokens in text order, linked to their parents instead of kept on a stack. */
module JsonTokenizer {
  import opened Radix

  type Text = seq<byte>

  datatype Kind = Undefined | Object | Array | Str | Primitive

  /** Span, number of members or elements, and index of the parent token (-1 at the root). */
  datatype Tok = Tok(kind: Kind, start: int, end: int, size: int, parent: int)

  const QUOTE: byte := 0x22
  const BACKSLASH: byte := 0x5c
  const COLON: byte := 0x3a
  const COMMA: byte := 0x2c
  const OPEN_BRACE: byte := 0x7b
  const CLOSE_BRACE: byte := 0x7d
  const OPEN_BRACKET: byte := 0x5b
  const CLOSE_BRACKET: byte := 0x5d
  const INT_MAX: int := 0x7fff_ffff

  predicate Space(c: byte) {
    c == 0x20 || c == 0x09 || c == 0x0d || c == 0x0a
  }

  /** Characters that end a primitive. */
  predicate Delimiter(c: byte) {
    c == COMMA || c == CLOSE_BRACE || c == CLOSE_BRACKET || c == COLON || Space(c)
  }

  predicate HexDigit(c: byte) {
    0x30 <= c <= 0x39 || 0x61 <= c <= 0x66 || 0x41 <= c <= 0x46
  }

  /** The escapes of one character: " \ / b f n r t */
  predicate SimpleEscape(c: byte) {
    c == QUOTE || c == BACKSLASH || c == 0x2f || c == 0x62 || c == 0x66 || c == 0x6e || c == 0x72 || c == 0x74
  }

  // ---------- what the tokenizer computes ----------

  datatype Scan = Stop(at: nat) | Fail(code: int)

  /** Four hexadecimal digits, or the code of the first failure. */
  function ScanHex(src: Text, p: nat, count: nat): Scan
    decreases count
  {
    if count == 0 then Stop(p)
    else if p >= |src| then Fail(-3)
    else if !HexDigit(src[p]) then Fail(-2)
    else ScanHex(src, p + 1, count - 1)
  }

  /** Index of the closing quote of the string whose contents start at p. */
  function ScanString(src: Text, p: nat): (r: Scan)
    ensures r.Stop? ==> p <= r.at < |src| && src[r.at] == QUOTE
    decreases |src| - p
  {
    if p >= |src| then Fail(-3)
    else if src[p] == QUOTE then Stop(p)
    else if src[p] == BACKSLASH then
      if p + 1 >= |src| then Fail(-3)
      else if SimpleEscape(src[p + 1]) then ScanString(src, p + 2)
      else if src[p + 1] == 0x75 then
        match ScanHex(src, p + 2, 4)
        case Stop(_) => ScanString(src, p + 6)
        case Fail(code) => Fail(code)
      else Fail(-2)
    else if src[p] < 0x20 then Fail(-2)
    else ScanString(src, p + 1)
  }

  /** End of the primitive at p. */
  function ScanPrimitive(src: Text, p: nat): (r: Scan)
    ensures r.Stop? && p <= |src| ==> p <= r.at <= |src|
    decreases |src| - p
  {
    if p >= |src| || Delimiter(src[p]) then Stop(p)
    else if src[p] < 0x20 || src[p] >= 0x7f then Fail(-2)
    else ScanPrimitive(src, p + 1)
  }

  /** Position, tokens so far, current parent and number of open containers. */
  datatype Machine = Machine(pos: nat, toks: seq<Tok>, parent: int, depth: int)

  datatype Outcome = Running(m: Machine) | Failed(code: int)

  function KindAt(toks: seq<Tok>, i: int): Kind {
    if 0 <= i < |toks| then toks[i].kind else Undefined
  }

  /** The key that an object or array value left as parent gives way to its object. */
  function PopKey(toks: seq<Tok>, parent: int): int {
    if KindAt(toks, parent) == Str then toks[parent].parent else parent
  }

  function Bump(toks: seq<Tok>, i: int): (r: seq<Tok>)
    ensures |r| == |toks|
  {
    if 0 <= i < |toks| then toks[i := toks[i].(size := toks[i].size + 1)] else toks
  }

  function OpenStep(c: byte, max: int, m: Machine): Outcome {
    if |m.toks| >= max then Failed(-1)
    else
      var k := KindAt(m.toks, m.parent);
      var toks := if k == Array || k == Object then Bump(m.toks, m.parent) else m.toks;
      var t := Tok(if c == OPEN_BRACE then Object else Array, m.pos, -1, 0, m.parent);
      Running(Machine(m.pos + 1, toks + [t], |toks|, m.depth + 1))
  }

  function CloseStep(c: byte, m: Machine): Outcome {
    var p := PopKey(m.toks, m.parent);
    if p < 0 || p >= |m.toks| then Failed(-2)
    else if m.toks[p].kind != (if c == CLOSE_BRACE then Object else Array) || m.toks[p].end != -1 then Failed(-2)
    else Running(Machine(m.pos + 1, m.toks[p := m.toks[p].(end := m.pos + 1)], m.toks[p].parent, m.depth - 1))
  }

  function StringStep(src: Text, max: int, m: Machine): Outcome {
    if |m.toks| >= max then Failed(-1)
    else
      match ScanString(src, m.pos + 1)
      case Fail(code) => Failed(code)
      case Stop(e) =>
        var toks := m.toks + [Tok(Str, m.pos + 1, e, 0, m.parent)];
        match KindAt(m.toks, m.parent)
        case Object => Running(Machine(e + 1, Bump(toks, m.parent), |m.toks|, m.depth))
        case Array => Running(Machine(e + 1, Bump(toks, m.parent), m.parent, m.depth))
        case Str => Running(Machine(e + 1, Bump(toks, m.parent), m.toks[m.parent].parent, m.depth))
        case _ => Running(Machine(e + 1, toks, m.parent, m.depth))
  }

  function PrimitiveStep(src: Text, max: int, m: Machine): Outcome {
    if |m.toks| >= max then Failed(-1)
    else
      match ScanPrimitive(src, m.pos)
      case Fail(code) => Failed(code)
      case Stop(e) =>
        if e == m.pos then Failed(-2)
        else
          var toks := m.toks + [Tok(Primitive, m.pos, e, 0, m.parent)];
          match KindAt(m.toks, m.parent)
          case Object => Failed(-2)
          case Array => Running(Machine(e, Bump(toks, m.parent), m.parent, m.depth))
          case Str => Running(Machine(e, Bump(toks, m.parent), m.toks[m.parent].parent, m.depth))
          case _ => Running(Machine(e, toks, m.parent, m.depth))
  }

  /** One pass of the loop. */
  function Step(src: Text, max: int, m: Machine): (r: Outcome)
    requires m.pos < |src|
    ensures r.Running? ==> m.pos < r.m.pos
  {
    var c := src[m.pos];
    if c == OPEN_BRACE || c == OPEN_BRACKET then OpenStep(c, max, m)
    else if c == CLOSE_BRACE || c == CLOSE_BRACKET then CloseStep(c, m)
    else if c == QUOTE then StringStep(src, max, m)
    else if Space(c) || c == COLON then Running(m.(pos := m.pos + 1))
    else if c == COMMA then Running(m.(pos := m.pos + 1, parent := PopKey(m.toks, m.parent)))
    else PrimitiveStep(src, max, m)
  }

  function Run(src: Text, max: int, m: Machine): Outcome
    decreases |src| - m.pos
  {
    if m.pos >= |src| then Running(m)
    else
      match Step(src, max, m)
      case Failed(code) => Failed(code)
      case Running(n) => Run(src, max, n)
  }

  const START: Machine := Machine(0, [], -1, 0)

  /** The final machine of an accepted text, or the error code. */
  function Tokenize(src: Text, max: int): (r: Outcome)
  {
    if |src| > INT_MAX then Failed(-2)
    else
      match Run(src, max, START)
      case Failed(code) => Failed(code)
      case Running(m) => if m.depth != 0 then Failed(-3) else if |m.toks| == 0 then Failed(-2) else Running(m)
  }

  /** Every token comes after its parent. */
  ghost predicate Linked(toks: seq<Tok>) {
    forall i :: 0 <= i < |toks| ==> -1 <= toks[i].parent < i
  }

  // ---------- the parser ----------

  /** parser_state: the cursor, the caller's token array and the current parent. */
  class Parser {
    const src: Text
    const toks: array<Tok>
    const max: int
    var pos: nat
    var count: nat
    var parent: int

    constructor (src: Text, toks: array<Tok>, max: int)
      requires max <= toks.Length
      ensures this.src == src && this.toks == toks && this.max == max && Valid() && State(0) == START
    {
      this.src, this.toks, this.max := src, toks, max;
      pos, count, parent := 0, 0, -1;
    }

    ghost predicate Valid()
      reads this, toks
    {
      count <= toks.Length && max <= toks.Length && -1 <= parent < count && Linked(toks[..count])
    }

    /** The machine the specification speaks of. */
    ghost function State(depth: int): (m: Machine)
      requires Valid()
      reads this, toks
    {
      Machine(pos, toks[..count], parent, depth)
    }

    /** Appends a blank token under the current parent; false when the array is full. */
    method AllocTok() returns (ok: bool)
      requires Valid()
      modifies this`count, toks
      ensures Valid() && (ok <==> old(count) < max)
      ensures ok ==> count == old(count) + 1 && toks[..count] == old(toks[..count]) + [Tok(Undefined, -1, -1, 0, parent)]
    {
      if count >= max {
        return false;
      }
      toks[count] := Tok(Undefined, -1, -1, 0, parent);
      count := count + 1;
      assert toks[..count] == old(toks[..count]) + [Tok(Undefined, -1, -1, 0, parent)];
      ok := true;
    }

    /** p->toks[p->parent].size++ */
    method BumpParent()
      requires Valid() && parent >= 0
      modifies toks
      ensures Valid() && toks[..count] == Bump(old(toks[..count]), parent)
    {
      ghost var was := toks[..count];
      toks[parent] := toks[parent].(size := toks[parent].size + 1);
      assert toks[..count] == was[parent := was[parent].(size := was[parent].size + 1)];
    }

    /** Fills in token i, which keeps its place in the tree. */
    method SetToken(i: nat, kind: Kind, start: int, end: int)
      requires Valid() && i < count
      modifies toks
      ensures Valid() && toks[..count] == old(toks[..count])[i := old(toks[i]).(kind := kind, start := start, end := end)]
    {
      ghost var was := toks[..count];
      toks[i] := toks[i].(kind := kind, start := start, end := end);
      assert toks[..count] == was[i := was[i].(kind := kind, start := start, end := end)];
    }

    method OpenContainer(ghost depth: int) returns (code: int)
      requires Valid() && pos < |src| && (src[pos] == OPEN_BRACE || src[pos] == OPEN_BRACKET)
      modifies this, toks
      ensures match OpenStep(src[old(pos)], max, old(State(depth)))
              case Failed(c) => code == c && c < 0
              case Running(m) => code == 0 && Valid() && State(depth + 1) == m
    {
      hide Linked;
      ghost var was, k := toks[..count], KindAt(toks[..count], parent);
      var ok := AllocTok();
      if !ok {
        return -1;
      }
      ghost var blank := Tok(Undefined, -1, -1, 0, parent);
      if parent >= 0 && (toks[parent].kind == Array || toks[parent].kind == Object) {
        BumpParent();
        assert Bump(was + [blank], parent) == Bump(was, parent) + [blank];
      }
      ghost var bumped := if k == Array || k == Object then Bump(was, parent) else was;
      assert toks[..count] == bumped + [blank];
      assert toks[count - 1] == toks[..count][count - 1];
      SetToken(count - 1, if src[pos] == OPEN_BRACE then Object else Array, pos, -1);
      parent := count - 1;
      pos := pos + 1;
      code := 0;
    }

    method CloseContainer(ghost depth: int) returns (code: int)
      requires Valid() && pos < |src| && (src[pos] == CLOSE_BRACE || src[pos] == CLOSE_BRACKET)
      modifies this, toks
      ensures match CloseStep(src[old(pos)], old(State(depth)))
              case Failed(c) => code == c && c < 0
              case Running(m) => code == 0 && Valid() && State(depth - 1) == m
    {
      ghost var was := toks[..count];
      var want := if src[pos] == CLOSE_BRACE then Object else Array;
      if parent >= 0 && toks[parent].kind == Str {
        assert was[parent] == toks[parent];
        parent := toks[parent].parent;
      }
      if parent < 0 {
        return -2;
      }
      if toks[parent].kind != want || toks[parent].end != -1 {
        return -2;
      }
      toks[parent] := toks[parent].(end := pos + 1);
      assert toks[..count] == was[parent := was[parent].(end := pos + 1)];
      parent := toks[parent].parent;
      pos := pos + 1;
      code := 0;
    }

    /** The comma rule and the colon rule skip the character; a comma also leaves a pending key. */
    method Separator()
      requires Valid() && pos < |src|
      modifies this
      ensures Valid() && pos == old(pos) + 1 && toks[..count] == old(toks[..count])
      ensures parent == if src[old(pos)] == COMMA then PopKey(toks[..count], old(parent)) else old(parent)
    {
      if src[pos] == COMMA && parent >= 0 && toks[parent].kind == Str {
        assert toks[..count][parent] == toks[parent];
        parent := toks[parent].parent;
      }
      pos := pos + 1;
    }

    /** \uXXXX: the four digits after the u at pos; leaves pos on the last of them. */
    method HexDigits() returns (code: int)
      requires pos < |src|
      modifies this`pos
      ensures match ScanHex(src, old(pos) + 1, 4)
              case Fail(c) => code == c && c < 0
              case Stop(_) => code == 0 && pos == old(pos) + 4 && pos < |src|
    {
      var i := 0;
      while i < 4
        invariant 0 <= i <= 4 && pos == old(pos) + i && pos < |src|
        invariant ScanHex(src, pos + 1, 4 - i) == ScanHex(src, old(pos) + 1, 4)
      {
        pos := pos + 1;
        if pos >= |src| {
          return -3;
        }
        if !HexDigit(src[pos]) {
          return -2;
        }
        i := i + 1;
      }
      code := 0;
    }

    /** The backslash at pos and what follows; leaves pos on the last character of the escape. */
    method Escape() returns (code: int)
      requires pos < |src| && src[pos] == BACKSLASH
      modifies this`pos
      ensures code < 0 ==> ScanString(src, old(pos)) == Fail(code)
      ensures code >= 0 ==> code == 0 && old(pos) < pos < |src| && ScanString(src, old(pos)) == ScanString(src, pos + 1)
    {
      pos := pos + 1;
      if pos >= |src| {
        return -3;
      }
      if SimpleEscape(src[pos]) {
        return 0;
      }
      if src[pos] != 0x75 {
        return -2;
      }
      code := HexDigits();
    }

    /** parse_string_tok */
    method StringTok() returns (code: int)
      requires Valid() && pos < |src| && src[pos] == QUOTE
      modifies this`pos, this`count, toks
      ensures old(count) >= max ==> code == -1
      ensures old(count) < max ==>
        match ScanString(src, old(pos) + 1)
        case Fail(c) => code == c && c < 0
        case Stop(e) =>
          && code == 0 && Valid() && pos == e + 1 && count == old(count) + 1
          && toks[..count] == old(toks[..count]) + [Tok(Str, old(pos) + 1, e, 0, parent)]
    {
      ghost var was := toks[..count];
      var ok := AllocTok();
      if !ok {
        return -1;
      }
      var i := count - 1;
      assert toks[i] == toks[..count][i];
      pos := pos + 1;
      var start := pos;
      while pos < |src|
        invariant count == old(count) + 1 && toks[..count] == was + [Tok(Undefined, -1, -1, 0, parent)]
        invariant ScanString(src, pos) == ScanString(src, start)
        decreases |src| - pos
      {
        var c := src[pos];
        if c == QUOTE {
          toks[i] := toks[i].(kind := Str, start := start, end := pos);
          assert toks[..count] == was + [Tok(Str, start, pos, 0, parent)];
          pos := pos + 1;
          return 0;
        }
        if c == BACKSLASH {
          code := Escape();
          if code < 0 {
            return;
          }
        } else if c < 0x20 {
          return -2;
        }
        pos := pos + 1;
      }
      code := -3;
    }

    /** parse_primitive_tok */
    method PrimitiveTok() returns (code: int)
      requires Valid() && pos < |src|
      modifies this`pos, this`count, toks
      ensures old(count) >= max ==> code == -1
      ensures old(count) < max ==>
        match ScanPrimitive(src, old(pos))
        case Fail(c) => code == c && c < 0
        case Stop(e) =>
          && (e == old(pos) ==> code == -2)
          && (e > old(pos) ==>
              && code == 0 && Valid() && pos == e && count == old(count) + 1
              && toks[..count] == old(toks[..count]) + [Tok(Primitive, old(pos), e, 0, parent)])
    {
      ghost var was := toks[..count];
      var ok := AllocTok();
      var start := pos;
      if !ok {
        return -1;
      }
      while pos < |src|
        modifies this`pos
        invariant start <= pos <= |src| && ScanPrimitive(src, pos) == ScanPrimitive(src, start)
      {
        var c := src[pos];
        if Delimiter(c) {
          break;
        }
        if c < 0x20 || c >= 0x7f {
          return -2;
        }
        pos := pos + 1;
      }
      if pos == start {
        return -2;
      }
      var i := count - 1;
      assert toks[i] == toks[..count][i];
      toks[i] := toks[i].(kind := Primitive, start := start, end := pos);
      assert toks[..count] == was + [Tok(Primitive, start, pos, 0, parent)];
      code := 0;
    }

    method StringValue(ghost depth: int) returns (code: int)
      requires Valid() && pos < |src| && src[pos] == QUOTE
      modifies this, toks
      ensures match StringStep(src, max, old(State(depth)))
              case Failed(c) => code == c && c < 0
              case Running(m) => code == 0 && Valid() && State(depth) == m
    {
      ghost var was := toks[..count];
      var isKey := false;
      if parent >= 0 && toks[parent].kind == Object {
        isKey := true;
      }
      code := StringTok();
      if code < 0 {
        return;
      }
      if parent >= 0 {
        assert toks[parent] == toks[..count][parent] == was[parent];
        if isKey {
          BumpParent();
          parent := count - 1;
        } else if toks[parent].kind == Array {
          BumpParent();
        } else if toks[parent].kind == Str {
          BumpParent();
          assert toks[parent] == toks[..count][parent];
          parent := toks[parent].parent;
        }
      }
    }

    method PrimitiveValue(ghost depth: int) returns (code: int)
      requires Valid() && pos < |src|
      modifies this, toks
      ensures match PrimitiveStep(src, max, old(State(depth)))
              case Failed(c) => code == c && c < 0
              case Running(m) => code == 0 && Valid() && State(depth) == m
    {
      ghost var was := toks[..count];
      code := PrimitiveTok();
      if code < 0 {
        return;
      }
      if parent >= 0 {
        assert toks[parent] == toks[..count][parent] == was[parent];
        if toks[parent].kind == Array {
          BumpParent();
        } else if toks[parent].kind == Str {
          BumpParent();
          assert toks[parent] == toks[..count][parent];
          parent := toks[parent].parent;
        } else if toks[parent].kind == Object {
          return -2;
        }
      }
    }
  }

  /** The switch of the main loop; `change` is what the character adds to the depth. */
  method Dispatch(p: Parser, ghost depth: int) returns (code: int, change: int)
    requires p.Valid() && p.pos < |p.src|
    modifies p, p.toks
    ensures match Step(p.src, p.max, old(p.State(depth)))
            case Failed(c) => code == c && c < 0
            case Running(m) => code == 0 && p.Valid() && p.State(depth + change) == m
  {
    hide ScanString, ScanPrimitive;
    var c := p.src[p.pos];
    change := 0;
    if c == OPEN_BRACE || c == OPEN_BRACKET {
      code := p.OpenContainer(depth);
      change := 1;
    } else if c == CLOSE_BRACE || c == CLOSE_BRACKET {
      code := p.CloseContainer(depth);
      change := -1;
    } else if c == QUOTE {
      code := p.StringValue(depth);
    } else if Space(c) || c == COLON || c == COMMA {
      p.Separator();
      code := 0;
    } else {
      code := p.PrimitiveValue(depth);
    }
  }

  /** hlm_json_parse: the number of tokens, or -1 (too many tokens), -2 (malformed), -3 (cut short). */
  method Parse(src: Text, toks: array<Tok>, max: int) returns (code: int)
    requires max <= toks.Length
    modifies toks
    ensures match Tokenize(src, max)
            case Failed(c) => code == c && c < 0
            case Running(m) => code == |m.toks| && 0 < code <= toks.Length && toks[..code] == m.toks
  {
    hide Step;
    if |src| > INT_MAX {
      return -2;
    }
    var p := new Parser(src, toks, max);
    var depth := 0;
    while p.pos < |src|
      invariant p.Valid() && p.src == src && p.toks == toks && p.max == max
      invariant Run(src, max, p.State(depth)) == Run(src, max, START)
      decreases |src| - p.pos
    {
      var change;
      ghost var before := p.State(depth);
      code, change := Dispatch(p, depth);
      if code < 0 {
        return;
      }
      depth := depth + change;
    }
    if depth != 0 {
      return -3;
    }
    if p.count == 0 {
      return -2;
    }
    code := p.count;
  }
}
