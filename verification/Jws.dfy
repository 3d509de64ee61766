/** Compact JWS verification (RFC 7515): trimming, segments, key selection. */
module Jws {
  import Options
  import opened Radix
  import opened JsonTokenizer
  import JsonStructure
  import opened JsonGrammar
  import opened JsonComplete
  import opened JsonNavigate
  import B64url

  // ---------- codes ----------

  const OK: int := 0
  const E_ARG: int := -1
  const E_BUFFER: int := -2
  const E_FORMAT: int := -3
  const E_SIGNATURE: int := -4
  const E_UNSUPPORTED_ALG: int := -5

  /** Capacity of the payload buffer of a licence check. */
  const CLIENT_BUF: nat := 16384

  datatype Alg = RS256 | ES256 | EdDSA

  /** A vendor key: its algorithm and its raw components. */
  datatype Key = Key(alg: Alg, parts: seq<Text>)

  /** The crypto port: 1 valid, 0 invalid, negative for an error. */
  type Port = (Key, Text, Text) -> int

  // ---------- specification ----------

  predicate Blank(c: byte) {
    c == 0x20 || c == 0x0d || c == 0x0a || c == 0x09
  }

  function TrimLeft(t: Text): (r: Text)
    ensures |r| > 0 ==> !Blank(r[0])
    ensures |r| <= |t|
  {
    if |t| > 0 && Blank(t[0]) then TrimLeft(t[1..]) else t
  }

  function TrimRight(t: Text): (r: Text)
    ensures |r| > 0 ==> !Blank(r[|r| - 1])
    ensures |r| <= |t|
  {
    if |t| > 0 && Blank(t[|t| - 1]) then TrimRight(t[..|t| - 1]) else t
  }

  const PERIOD: byte := 0x2e

  /** First period at or after i, or the end of the text. */
  function NextPeriod(t: Text, i: nat): (r: nat)
    requires i <= |t|
    ensures i <= r <= |t| && (r < |t| ==> t[r] == PERIOD) && forall k :: i <= k < r ==> t[k] != PERIOD
    decreases |t| - i
  {
    if i == |t| || t[i] == PERIOD then i else NextPeriod(t, i + 1)
  }

  datatype Segments = NoSegments | Segments(header: Text, payload: Text, signature: Text)

  /** Exactly three non-empty parts between periods. */
  function Split(t: Text): Segments {
    var d1 := NextPeriod(t, 0);
    if d1 == |t| then NoSegments
    else
      var d2 := NextPeriod(t, d1 + 1);
      if d2 == |t| then NoSegments
      else if NextPeriod(t, d2 + 1) != |t| then NoSegments
      else if d1 == 0 || d2 == d1 + 1 || d2 + 1 == |t| then NoSegments
      else Segments(t[..d1], t[d1 + 1..d2], t[d2 + 1..])
  }

  /** base64url text decoded into a buffer of `cap` bytes. */
  function DecodeWithin(t: Text, cap: nat): Options.Option<Text> {
    var r := B64url.Decode(B64url.Trim(t));
    if r.Some? && |r.value| <= cap then r else Options.None
  }

  const ALG: Text := [0x61, 0x6c, 0x67]

  datatype AlgResult = BadHeader | UnknownAlg | Known(alg: Alg)

  function AlgNamed(name: Text): AlgResult {
    if name == [0x52, 0x53, 0x32, 0x35, 0x36] then Known(RS256)
    else if name == [0x45, 0x53, 0x32, 0x35, 0x36] then Known(ES256)
    else if name == [0x45, 0x64, 0x44, 0x53, 0x41] then Known(EdDSA)
    else UnknownAlg
  }

  /** The algorithm member of a JOSE header of at most 16 tokens. */
  function HeaderAlg(header: Text): AlgResult {
    var r := Tokenize(header, 16);
    if r.Failed? then BadHeader
    else
      JsonStructure.AcceptedWellFormed(header, 16);
      var doc := Doc(header, r.m.toks);
      var tok := FindMember(doc, 0, ALG);
      if tok < 0 || tok >= |doc.toks| then BadHeader else AlgNamed(Raw(doc, tok))
  }

  /** The keys from i on, tried in order; `any` tells whether one of the algorithm came before. */
  function TryKeys(keys: seq<Key>, verify: Port, alg: Alg, msg: Text, sig: Text, i: nat, any: bool): (code: int)
    requires i <= |keys|
    ensures code == OK || code == E_SIGNATURE || code == E_UNSUPPORTED_ALG
    decreases |keys| - i
  {
    if i == |keys| then (if any then E_SIGNATURE else E_UNSUPPORTED_ALG)
    else if keys[i].alg != alg then TryKeys(keys, verify, alg, msg, sig, i + 1, any)
    else
      var r := verify(keys[i], msg, sig);
      if r == 1 then OK
      else if r == E_UNSUPPORTED_ALG then E_UNSUPPORTED_ALG
      else TryKeys(keys, verify, alg, msg, sig, i + 1, true)
  }

  datatype Verdict = Refused(code: int) | Payload(payload: Text)

  function VerifySegments(keys: seq<Key>, verify: Port, s: Segments): (v: Verdict)
    requires s.Segments?
    ensures v.Refused? ==> E_UNSUPPORTED_ALG <= v.code <= E_ARG
  {
    var header := DecodeWithin(s.header, 255);
    if header.None? then Refused(E_FORMAT)
    else
      var alg := HeaderAlg(header.value);
      if alg.BadHeader? then Refused(E_FORMAT)
      else if alg.UnknownAlg? then Refused(E_UNSUPPORTED_ALG)
      else
        var sig := DecodeWithin(s.signature, 520);
        if sig.None? then Refused(E_FORMAT)
        else
          var code := TryKeys(keys, verify, alg.alg, s.header + [PERIOD] + s.payload, sig.value, 0, false);
          if code != OK then Refused(code)
          else
            var payload := DecodeWithin(s.payload, CLIENT_BUF);
            if payload.None? then Refused(E_BUFFER) else Payload(payload.value)
  }

  /** What verification answers for a token, as a function of the token and the keys alone. */
  function Verify(keys: seq<Key>, verify: Port, token: Text): (v: Verdict)
    ensures v.Refused? ==> E_UNSUPPORTED_ALG <= v.code <= E_ARG
  {
    if |keys| == 0 then Refused(E_ARG)
    else
      var s := Split(TrimRight(TrimLeft(token)));
      if s.NoSegments? then Refused(E_FORMAT) else VerifySegments(keys, verify, s)
  }

  // ---------- what acceptance means ----------

  /** Key k verifies the signature, and no earlier key of the algorithm reports it unsupported. */
  ghost predicate SignedBy(keys: seq<Key>, verify: Port, alg: Alg, msg: Text, sig: Text, k: nat) {
    && k < |keys| && keys[k].alg == alg && verify(keys[k], msg, sig) == 1
    && forall j :: 0 <= j < k && keys[j].alg == alg ==> verify(keys[j], msg, sig) != E_UNSUPPORTED_ALG
  }

  lemma {:induction false} TryKeysExact(keys: seq<Key>, verify: Port, alg: Alg, msg: Text, sig: Text, i: nat, any: bool)
    requires i <= |keys| && forall j :: 0 <= j < i && keys[j].alg == alg ==> verify(keys[j], msg, sig) != 1 && verify(keys[j], msg, sig) != E_UNSUPPORTED_ALG
    ensures TryKeys(keys, verify, alg, msg, sig, i, any) == OK <==> exists k :: SignedBy(keys, verify, alg, msg, sig, k)
    decreases |keys| - i
  {
    if i < |keys| {
      if keys[i].alg == alg && verify(keys[i], msg, sig) == 1 {
        assert SignedBy(keys, verify, alg, msg, sig, i);
      } else if keys[i].alg == alg && verify(keys[i], msg, sig) == E_UNSUPPORTED_ALG {
        forall k: nat
          ensures !SignedBy(keys, verify, alg, msg, sig, k)
        {
        }
      } else {
        TryKeysExact(keys, verify, alg, msg, sig, i + 1, any || keys[i].alg == alg);
      }
    }
  }

  /** The three parts of a token: non-empty, free of periods, joined by periods. */
  ghost predicate Parts(t: Text, h: Text, p: Text, s: Text) {
    && t == h + [PERIOD] + p + [PERIOD] + s && |h| > 0 && |p| > 0 && |s| > 0
    && PERIOD !in h && PERIOD !in p && PERIOD !in s
  }

  lemma {:induction false} PeriodAt(t: Text, i: nat, k: nat)
    requires i <= k <= |t| && (forall j :: i <= j < k ==> t[j] != PERIOD) && (k < |t| ==> t[k] == PERIOD)
    ensures NextPeriod(t, i) == k
    decreases k - i
  {
    if i < k {
      PeriodAt(t, i + 1, k);
    }
  }

  lemma PartsSplit(t: Text, h: Text, p: Text, s: Text)
    requires Parts(t, h, p, s)
    ensures Split(t) == Segments(h, p, s)
  {
    hide NextPeriod;
    var d1, d2 := |h|, |h| + 1 + |p|;
    assert t[d1] == PERIOD && t[d2] == PERIOD;
    assert t[..d1] == h && t[d1 + 1..d2] == p && t[d2 + 1..] == s;
    forall j | 0 <= j < |t| && j != d1 && j != d2
      ensures t[j] != PERIOD
    {
      assert t[j] == if j < d1 then h[j] else if j < d2 then p[j - d1 - 1] else s[j - d2 - 1];
    }
    PeriodAt(t, 0, d1);
    PeriodAt(t, d1 + 1, d2);
    PeriodAt(t, d2 + 1, |t|);
  }

  lemma SplitParts(t: Text)
    requires Split(t).Segments?
    ensures var s := Split(t); Parts(t, s.header, s.payload, s.signature)
  {
    hide NextPeriod;
    var d1 := NextPeriod(t, 0);
    var d2 := NextPeriod(t, d1 + 1);
    assert t == t[..d1] + [t[d1]] + t[d1 + 1..d2] + [t[d2]] + t[d2 + 1..];
  }

  /** Splitting finds the parts exactly when there are three. */
  lemma SplitExact(t: Text, h: Text, p: Text, s: Text)
    ensures Split(t) == Segments(h, p, s) <==> Parts(t, h, p, s)
    ensures Split(t) == Segments(h, p, s) <==>
              t == h + Ascii(".") + p + Ascii(".") + s && h != [] && p != [] && s != [] && '.' as int !in h && '.' as int !in p && '.' as int !in s
  {
    assert Ascii(".") == [PERIOD];
    hide Split;
    if Parts(t, h, p, s) {
      PartsSplit(t, h, p, s);
    } else if Split(t) == Segments(h, p, s) {
      SplitParts(t);
    }
  }

  /** A payload comes out exactly when the trimmed token has three parts, its header names an algorithm,
      and some key of that algorithm verifies the signature over "header.payload" as written. */
  lemma AcceptedExact(keys: seq<Key>, verify: Port, token: Text, payload: Text)
    ensures Verify(keys, verify, token) == Payload(payload) <==> exists h, p, s :: Accepts(keys, verify, token, payload, h, p, s)
  {
    var t := TrimRight(TrimLeft(token));
    hide TrimRight, TrimLeft, Split, HeaderAlg, TryKeys, SignedBy, Parts, DecodeWithin;
    var sp := Split(t);
    if Verify(keys, verify, token).Payload? {
      SplitExact(t, sp.header, sp.payload, sp.signature);
      KeysDecide(keys, verify, sp);
      if Verify(keys, verify, token) == Payload(payload) {
        assert Accepts(keys, verify, token, payload, sp.header, sp.payload, sp.signature);
      }
    }
    forall h, p, s | Accepts(keys, verify, token, payload, h, p, s)
      ensures Verify(keys, verify, token) == Payload(payload)
    {
      SplitExact(t, h, p, s);
      KeysDecide(keys, verify, Segments(h, p, s));
      NoKeyNoSignature(keys, verify, h, p, s);
    }
  }

  ghost predicate Accepts(keys: seq<Key>, verify: Port, token: Text, payload: Text, h: Text, p: Text, s: Text) {
    && Parts(TrimRight(TrimLeft(token)), h, p, s)
    && SignatureHolds(keys, verify, h, p, s) && DecodeWithin(p, CLIENT_BUF) == Options.Some(payload)
  }

  /** Header and signature decode, and a key of the header's algorithm verifies. */
  ghost predicate SignatureHolds(keys: seq<Key>, verify: Port, h: Text, p: Text, s: Text) {
    var header, sig := DecodeWithin(h, 255), DecodeWithin(s, 520);
    && header.Some? && HeaderAlg(header.value).Known? && sig.Some?
    && exists k :: SignedBy(keys, verify, HeaderAlg(header.value).alg, h + [PERIOD] + p, sig.value, k)
  }

  lemma KeysDecide(keys: seq<Key>, verify: Port, s: Segments)
    requires s.Segments?
    ensures SignatureHolds(keys, verify, s.header, s.payload, s.signature) <==>
              var header, sig := DecodeWithin(s.header, 255), DecodeWithin(s.signature, 520);
              && header.Some? && HeaderAlg(header.value).Known? && sig.Some?
              && TryKeys(keys, verify, HeaderAlg(header.value).alg, s.header + [PERIOD] + s.payload, sig.value, 0, false) == OK
  {
    hide DecodeWithin, HeaderAlg, TryKeys, SignedBy;
    var header, sig := DecodeWithin(s.header, 255), DecodeWithin(s.signature, 520);
    if header.Some? && HeaderAlg(header.value).Known? && sig.Some? {
      TryKeysExact(keys, verify, HeaderAlg(header.value).alg, s.header + [PERIOD] + s.payload, sig.value, 0, false);
    }
  }

  lemma NoKeyNoSignature(keys: seq<Key>, verify: Port, h: Text, p: Text, s: Text)
    requires SignatureHolds(keys, verify, h, p, s)
    ensures |keys| > 0
  {}

  // ---------- refusals ----------

  /** What the code answers for signing keys tried in order, for each outcome: none of the algorithm, one that reports it
      unsupported before any verifies, or none that verifies. */
  ghost predicate Unsupported(keys: seq<Key>, verify: Port, alg: Alg, msg: Text, sig: Text, k: nat) {
    && k < |keys| && keys[k].alg == alg && verify(keys[k], msg, sig) == E_UNSUPPORTED_ALG
    && forall j :: 0 <= j < k && keys[j].alg == alg ==> verify(keys[j], msg, sig) != 1
  }

  ghost predicate NoKeyOf(keys: seq<Key>, alg: Alg) {
    forall k :: 0 <= k < |keys| ==> keys[k].alg != alg
  }

  lemma {:induction false} TryKeysRefused(keys: seq<Key>, verify: Port, alg: Alg, msg: Text, sig: Text, i: nat, any: bool)
    requires i <= |keys| && forall j :: 0 <= j < i && keys[j].alg == alg ==> verify(keys[j], msg, sig) != 1 && verify(keys[j], msg, sig) != E_UNSUPPORTED_ALG
    requires any <==> exists j :: 0 <= j < i && keys[j].alg == alg
    ensures TryKeys(keys, verify, alg, msg, sig, i, any) == E_UNSUPPORTED_ALG <==>
              NoKeyOf(keys, alg) || exists k :: Unsupported(keys, verify, alg, msg, sig, k)
    decreases |keys| - i
  {
    if i < |keys| {
      if keys[i].alg == alg && verify(keys[i], msg, sig) == E_UNSUPPORTED_ALG {
        assert Unsupported(keys, verify, alg, msg, sig, i);
      } else if keys[i].alg != alg || verify(keys[i], msg, sig) != 1 {
        TryKeysRefused(keys, verify, alg, msg, sig, i + 1, any || keys[i].alg == alg);
      }
    }
  }

  /** Without keys the argument is at fault; a token that is not three parts is malformed. */
  lemma NotATokenRefused(keys: seq<Key>, verify: Port, token: Text)
    ensures |keys| == 0 ==> Verify(keys, verify, token) == Refused(E_ARG)
    ensures |keys| > 0 && (forall h, p, s :: !Parts(TrimRight(TrimLeft(token)), h, p, s)) ==> Verify(keys, verify, token) == Refused(E_FORMAT)
  {
    hide Split, Parts, TrimLeft, TrimRight, VerifySegments;
    var t := TrimRight(TrimLeft(token));
    var s := Split(t);
    if s.Segments? {
      SplitExact(t, s.header, s.payload, s.signature);
    }
  }

  /** Each refusal of three parts says what is wrong with them: the format, the algorithm, the signature or the size. */
  lemma RefusedExact(keys: seq<Key>, verify: Port, token: Text, h: Text, p: Text, s: Text)
    requires |keys| > 0 && Parts(TrimRight(TrimLeft(token)), h, p, s)
    ensures var v, header, sig := Verify(keys, verify, token), DecodeWithin(h, 255), DecodeWithin(s, 520);
            var msg := h + [PERIOD] + p;
            var alg := if header.Some? then HeaderAlg(header.value) else BadHeader;
            && (v == Refused(E_FORMAT) <==> alg.BadHeader? || (alg.Known? && sig.None?))
            && (alg.UnknownAlg? ==> v == Refused(E_UNSUPPORTED_ALG))
            && (alg.Known? && sig.Some? ==>
                  (v == Refused(E_UNSUPPORTED_ALG) <==> NoKeyOf(keys, alg.alg) || exists k :: Unsupported(keys, verify, alg.alg, msg, sig.value, k)))
            && (v == Refused(E_BUFFER) <==> SignatureHolds(keys, verify, h, p, s) && DecodeWithin(p, 16384).None?)
            && (v.Refused? ==> v.code == E_FORMAT || v.code == E_UNSUPPORTED_ALG || v.code == E_SIGNATURE || v.code == E_BUFFER)
  {
    hide TrimRight, TrimLeft, Split, HeaderAlg, TryKeys, SignedBy, Parts, DecodeWithin, SignatureHolds, Unsupported, NoKeyOf;
    SplitExact(TrimRight(TrimLeft(token)), h, p, s);
    KeysDecide(keys, verify, Segments(h, p, s));
    var header, sig := DecodeWithin(h, 255), DecodeWithin(s, 520);
    if header.Some? && HeaderAlg(header.value).Known? && sig.Some? {
      TryKeysRefused(keys, verify, HeaderAlg(header.value).alg, h + [PERIOD] + p, sig.value, 0, false);
    }
  }

  // ---------- headers and blanks ----------

  /** A header that is a JSON object names its algorithm with the string of its first "alg" member. Any other value of the
      member is an unknown algorithm, and without the member, or if the text is no object, the header is malformed. */
  lemma HeaderNames(pre: Text, v: Value, post: Text)
    requires Spaces(pre) && ValidValue(v) && Spaces(post) && |Document(pre, v, post)| <= INT_MAX && Count(v) <= 16
    ensures var m := if v.Obj? then Lookup(v.members, Ascii("alg")) else Options.None;
            HeaderAlg(Document(pre, v, post)) ==
              if m.None? then BadHeader
              else if m.value == Quoted(Ascii("RS256")) then Known(RS256)
              else if m.value == Quoted(Ascii("ES256")) then Known(ES256)
              else if m.value == Quoted(Ascii("EdDSA")) then Known(EdDSA)
              else UnknownAlg
  {
    hide Spaces, Count, Document, Lookup, FindMember, Tokenize, Render, ValidValue, ValidMembers;
    LookupInText(pre, v, post, 16, ALG);
    AlgorithmNames();
    var m := if v.Obj? then Lookup(v.members, ALG) else Options.None;
    if m.Some? {
      ValidLookup(v, ALG);
      if !m.value.Quoted? {
        NotAName(m.value);
      }
    }
  }

  lemma AlgorithmNames()
    ensures ALG == Ascii("alg")
    ensures Ascii("RS256") == [0x52, 0x53, 0x32, 0x35, 0x36] && Ascii("ES256") == [0x45, 0x53, 0x32, 0x35, 0x36]
    ensures Ascii("EdDSA") == [0x45, 0x64, 0x44, 0x53, 0x41]
  {}

  lemma ValidLookup(v: Value, key: Text)
    requires v.Obj? && ValidValue(v) && Lookup(v.members, key).Some?
    ensures ValidValue(Lookup(v.members, key).value)
  {
    ValidMember(v.members, key);
  }

  lemma {:induction false} ValidMember(ms: Members, key: Text)
    requires ValidMembers(ms) && Lookup(ms, key).Some?
    ensures ValidValue(Lookup(ms, key).value)
    decreases ms
  {
    if ms.key != key {
      ValidMember(ms.rest, key);
    }
  }

  /** Numbers, literals, arrays and objects never read as an algorithm's name. */
  lemma NotAName(v: Value)
    requires ValidValue(v) && !v.Quoted?
    ensures AlgNamed(Render(v)) == UnknownAlg
  {
    hide RenderItems, RenderMembers, ValidItems, ValidMembers, IsFraction;
    assert |Render(v)| > 0 && Render(v)[0] != 0x52 && Render(v)[0] != 0x45;
  }

  /** Blanks around a token are dropped: spaces, tabs, line feeds and carriage returns. */
  lemma TokenTrimmed(token: Text) returns (a: nat, z: nat)
    ensures a <= z <= |token| && TrimRight(TrimLeft(token)) == token[a..z]
    ensures forall i :: 0 <= i < a || z <= i < |token| ==> token[i] in [0x20, 0x09, 0x0a, 0x0d]
    ensures a < z ==> token[a] !in [0x20, 0x09, 0x0a, 0x0d] && token[z - 1] !in [0x20, 0x09, 0x0a, 0x0d]
  {
    var s := TrimLeft(token);
    LeftRest(token);
    RightRest(s);
    a := |token| - |s|;
    z := a + |TrimRight(s)|;
    hide TrimLeft, TrimRight;
    forall i | z <= i < |token|
      ensures Blank(token[i])
    {
      assert token[i] == s[i - a];
    }
    if a < z {
      assert TrimRight(s)[0] == token[a] && TrimRight(s)[z - a - 1] == token[z - 1];
      assert s[0] == token[a];
    }
  }

  lemma {:induction false} LeftRest(t: Text)
    ensures var k := |t| - |TrimLeft(t)|; TrimLeft(t) == t[k..] && forall i :: 0 <= i < k ==> Blank(t[i])
  {
    hide Blank;
    if |t| > 0 && Blank(t[0]) {
      LeftRest(t[1..]);
      var k := |t| - |TrimLeft(t)|;
      assert t[1..][k - 1..] == t[k..];
      forall i | 0 < i < k
        ensures Blank(t[i])
      {
        assert t[1..][i - 1] == t[i];
      }
    }
  }

  lemma {:induction false} RightRest(t: Text)
    ensures var k := |TrimRight(t)|; TrimRight(t) == t[..k] && forall i :: k <= i < |t| ==> Blank(t[i])
  {
    hide Blank;
    if |t| > 0 && Blank(t[|t| - 1]) {
      RightRest(t[..|t| - 1]);
    }
  }

  // ---------- the code ----------

  /** memchr for a period. */
  method FindPeriod(t: Text, i: nat) returns (r: nat)
    requires i <= |t|
    ensures r == NextPeriod(t, i)
  {
    r := i;
    while r < |t| && t[r] != PERIOD
      invariant i <= r <= |t| && NextPeriod(t, r) == NextPeriod(t, i)
    {
      r := r + 1;
    }
  }

  method TrimToken(token: Text) returns (t: Text)
    ensures t == TrimRight(TrimLeft(token))
  {
    var a, z := 0, |token|;
    assert token[a..z] == token;
    while a < z && Blank(token[a])
      invariant 0 <= a <= z == |token| && TrimLeft(token[a..z]) == TrimLeft(token)
      decreases z - a
    {
      assert token[a..z][1..] == token[a + 1..z];
      a := a + 1;
    }
    assert TrimLeft(token) == token[a..z];
    while a < z && Blank(token[z - 1])
      invariant 0 <= a <= z <= |token| && TrimRight(token[a..z]) == TrimRight(TrimLeft(token))
      decreases z - a
    {
      assert token[a..z][..z - a - 1] == token[a..z - 1];
      z := z - 1;
    }
    t := token[a..z];
  }

  /** hlm_b64url_decode into a fresh buffer of `cap` bytes. */
  method DecodeSegment(t: Text, cap: nat) returns (ok: bool, bytes: Text)
    ensures DecodeWithin(t, cap) == if ok then Options.Some(bytes) else Options.None
  {
    var buf := new byte[cap](_ => 0);
    var n := B64url.DecodeTo(t, buf);
    ok := n >= 0;
    bytes := if ok then buf[..n] else [];
  }

  method ReadAlg(header: Text) returns (r: AlgResult)
    ensures r == HeaderAlg(header)
  {
    var toks := new Tok[16](_ => Tok(Undefined, -1, -1, 0, -1));
    var ntok := JsonTokenizer.Parse(header, toks, 16);
    if ntok <= 0 {
      return BadHeader;
    }
    JsonStructure.AcceptedWellFormed(header, 16);
    var doc := Doc(header, toks[..ntok]);
    var tok := JsonNavigate.Member(doc, 0, ALG);
    if tok < 0 || tok >= |doc.toks| {
      return BadHeader;
    }
    r := AlgNamed(Raw(doc, tok));
  }

  /** The loop over the keys. */
  method FindKeyFor(keys: seq<Key>, verify: Port, alg: Alg, msg: Text, sig: Text) returns (code: int)
    ensures code == TryKeys(keys, verify, alg, msg, sig, 0, false)
  {
    var anyAlgKey := false;
    var i := 0;
    while i < |keys|
      invariant 0 <= i <= |keys|
      invariant TryKeys(keys, verify, alg, msg, sig, i, anyAlgKey) == TryKeys(keys, verify, alg, msg, sig, 0, false)
    {
      if keys[i].alg == alg {
        anyAlgKey := true;
        var r := verify(keys[i], msg, sig);
        if r == 1 {
          return OK;
        }
        if r == E_UNSUPPORTED_ALG {
          return E_UNSUPPORTED_ALG;
        }
      }
      i := i + 1;
    }
    code := if !anyAlgKey then E_UNSUPPORTED_ALG else E_SIGNATURE;
  }

  method SplitToken(t: Text) returns (s: Segments)
    ensures s == Split(t)
  {
    hide NextPeriod;
    var dot1 := FindPeriod(t, 0);
    if dot1 == |t| {
      return NoSegments;
    }
    var dot2 := FindPeriod(t, dot1 + 1);
    if dot2 == |t| {
      return NoSegments;
    }
    var dot3 := FindPeriod(t, dot2 + 1);
    if dot3 != |t| {
      return NoSegments;
    }
    if dot1 == 0 || dot2 == dot1 + 1 || dot2 + 1 == |t| {
      return NoSegments;
    }
    s := Segments(t[..dot1], t[dot1 + 1..dot2], t[dot2 + 1..]);
  }

  /** hlm_jws_verify */
  method VerifyToken(keys: seq<Key>, verify: Port, token: Text) returns (code: int, payload: Text)
    ensures Verify(keys, verify, token) == if code == OK then Payload(payload) else Refused(code)
  {
    hide DecodeWithin, HeaderAlg, TryKeys, Split, TrimLeft, TrimRight;
    payload := [];
    if |keys| == 0 {
      return E_ARG, payload;
    }
    var t := TrimToken(token);
    var s := SplitToken(t);
    if s.NoSegments? {
      return E_FORMAT, payload;
    }
    var ok, header := DecodeSegment(s.header, 255);
    if !ok {
      return E_FORMAT, payload;
    }
    var alg := ReadAlg(header);
    if alg.BadHeader? {
      return E_FORMAT, payload;
    }
    if alg.UnknownAlg? {
      return E_UNSUPPORTED_ALG, payload;
    }
    var sig;
    ok, sig := DecodeSegment(s.signature, 520);
    if !ok {
      return E_FORMAT, payload;
    }
    code := FindKeyFor(keys, verify, alg.alg, s.header + [PERIOD] + s.payload, sig);
    if code != OK {
      return;
    }
    ok, payload := DecodeSegment(s.payload, CLIENT_BUF);
    if !ok {
      code := E_BUFFER;
    }
  }
}
