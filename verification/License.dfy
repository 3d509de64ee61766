/** Licence status, machine binding and the installation of licence files. */
module License {
  import B64url
  import opened Radix
  import opened JsonTokenizer
  import opened Jws

  const E_PRODUCT_MISMATCH: int := -10
  const E_COMPUTER_MISMATCH: int := -11

  /** Marks an absent time. */
  const TIME_NONE: int := -0x8000_0000_0000_0000

  datatype Status = Unknown | Expired | Valid | ValidTrial | InvalidTrial | ReceiptExpired | ReceiptUnregistered

  /** The fields of a licence the client decides by. */
  datatype License = License(id: Text, serverStatus: Status, trialEnd: int64, expires: int64, created: int64, updated: int64,
                             hasReceipt: bool, receiptExpires: int64, productId: Text, machineId: Text)

  datatype Parsed = Malformed | Parsed(lic: License)

  /** Vendor keys, crypto and payload parser, and the product and machine a licence must be for. */
  datatype Policy = Policy(keys: seq<Key>, verify: Port, parse: Text -> Parsed, productId: Text, machineId: Text, machineIdLegacy: Text)

  // ---------- status ----------

  /** hlm_license_status */
  function StatusAt(lic: License, now: int): Status {
    if lic.expires != TIME_NONE && lic.expires <= now then Expired
    else if lic.serverStatus != Unknown then lic.serverStatus
    else if lic.updated == TIME_NONE then
      (if lic.trialEnd != TIME_NONE && now < lic.trialEnd then ValidTrial else InvalidTrial)
    else if !lic.hasReceipt then ReceiptUnregistered
    else if lic.receiptExpires != TIME_NONE && lic.receiptExpires <= now then ReceiptExpired
    else Valid
  }

  /** A status that still grants use. */
  predicate Usable(s: Status) {
    s == Valid || s == ValidTrial
  }

  /** As time passes a licence can lose its status but never regains a usable one. */
  lemma StatusOnlyLapses(lic: License, t: int, u: int)
    requires t <= u
    ensures StatusAt(lic, t) == Expired ==> StatusAt(lic, u) == Expired
    ensures Usable(StatusAt(lic, u)) ==> StatusAt(lic, t) == StatusAt(lic, u)
  {
  }

  /** The licence file itself has run out. */
  ghost predicate FileExpired(lic: License, now: int) {
    lic.expires != TIME_NONE && lic.expires <= now
  }

  ghost predicate TrialRunning(lic: License, now: int) {
    lic.trialEnd != TIME_NONE && now < lic.trialEnd
  }

  ghost predicate ReceiptRunning(lic: License, now: int) {
    lic.hasReceipt && (lic.receiptExpires == TIME_NONE || now < lic.receiptExpires)
  }

  /** Each answer by the fields and the time alone. A file that has not run out is what the server says it is; where the
      server says nothing, a licence that was never updated is a trial, and any other lives by its receipt. */
  lemma StatusExact(lic: License, now: int)
    ensures var s, silent, trial := StatusAt(lic, now), lic.serverStatus == Unknown, lic.updated == TIME_NONE;
            var live := !FileExpired(lic, now);
            && (s == Expired <==> !live || lic.serverStatus == Expired)
            && (s == Valid <==> live && (lic.serverStatus == Valid || (silent && !trial && ReceiptRunning(lic, now))))
            && (s == ValidTrial <==> live && (lic.serverStatus == ValidTrial || (silent && trial && TrialRunning(lic, now))))
            && (s == InvalidTrial <==> live && (lic.serverStatus == InvalidTrial || (silent && trial && !TrialRunning(lic, now))))
            && (s == ReceiptExpired <==> live && (lic.serverStatus == ReceiptExpired || (silent && !trial && lic.hasReceipt && !ReceiptRunning(lic, now))))
            && (s == ReceiptUnregistered <==> live && (lic.serverStatus == ReceiptUnregistered || (silent && !trial && !lic.hasReceipt)))
            && s != Unknown
    ensures !FileExpired(lic, now) && lic.serverStatus != Unknown ==> StatusAt(lic, now) == lic.serverStatus
  {
  }

  /** Use is granted exactly while the file has not run out and the server says so or, where it says nothing, a running
      trial or receipt does. */
  lemma UsableExact(lic: License, now: int)
    ensures Usable(StatusAt(lic, now)) <==>
              && !FileExpired(lic, now)
              && (lic.serverStatus == Valid || lic.serverStatus == ValidTrial
                  || (lic.serverStatus == Unknown && if lic.updated == TIME_NONE then TrialRunning(lic, now) else ReceiptRunning(lic, now)))
  {
    StatusExact(lic, now);
  }

  // ---------- identifiers ----------

  function Fold(c: byte): byte {
    if 0x41 <= c <= 0x5a then c - 0x41 + 0x61 else c
  }

  /** An ASCII letter in both cases. */
  ghost predicate CasePair(a: byte, b: byte) {
    (0x41 <= a <= 0x5a && b == a + 0x20) || (0x41 <= b <= 0x5a && a == b + 0x20)
  }

  /** Folding identifies the two cases of a letter and nothing else. */
  lemma FoldExact(a: byte, b: byte)
    ensures Fold(a) == Fold(b) <==> a == b || CasePair(a, b)
  {}

  /** Equal lengths, and at every place the same byte or the two cases of one letter. */
  ghost predicate Names(a: Text, b: Text) {
    |a| == |b| && forall i :: 0 <= i < |a| ==> a[i] == b[i] || CasePair(a[i], b[i])
  }

  lemma SameExact(a: Text, b: Text)
    ensures SameIgnoringCase(a, b) <==> Names(a, b)
  {
    hide Fold;
    if |a| == |b| {
      forall i | 0 <= i < |a|
        ensures Fold(a[i]) == Fold(b[i]) <==> a[i] == b[i] || CasePair(a[i], b[i])
      {
        FoldExact(a[i], b[i]);
      }
    }
  }

  /** Equal up to the case of ASCII letters. */
  predicate SameIgnoringCase(a: Text, b: Text) {
    |a| == |b| && forall i :: 0 <= i < |a| ==> Fold(a[i]) == Fold(b[i])
  }

  /** ascii_ieq */
  method AsciiIeq(a: Text, b: Text) returns (same: bool)
    ensures same <==> Names(a, b)
    ensures same <==> SameIgnoringCase(a, b)
  {
    SameExact(a, b);
    hide Names;
    var i := 0;
    while i < |a| && i < |b|
      invariant 0 <= i <= |a| && i <= |b|
      invariant forall k :: 0 <= k < i ==> Fold(a[k]) == Fold(b[k])
    {
      if Fold(a[i]) != Fold(b[i]) {
        return false;
      }
      i := i + 1;
    }
    same := i == |a| && i == |b|;
  }

  // ---------- the check both the cache and an import go through ----------

  datatype Check = Rejected(code: int) | Accepted(lic: License)

  /** This machine under its current id, or the older id it replaced. */
  predicate ForMachine(policy: Policy, lic: License) {
    SameIgnoringCase(lic.machineId, policy.machineId)
    || (policy.machineIdLegacy != [] && SameIgnoringCase(lic.machineId, policy.machineIdLegacy))
  }

  /** What hlm_license_check_machine answers: a function of the token and the policy, not of the time. */
  function CheckMachine(policy: Policy, token: Text): (r: Check)
    ensures r.Rejected? ==> E_UNSUPPORTED_ALG <= r.code <= E_ARG || r.code == E_PRODUCT_MISMATCH || r.code == E_COMPUTER_MISMATCH
  {
    match Verify(policy.keys, policy.verify, token)
    case Refused(code) => Rejected(code)
    case Payload(payload) =>
      var r := policy.parse(payload);
      if r.Malformed? then Rejected(E_FORMAT)
      else if !SameIgnoringCase(r.lic.productId, policy.productId) then Rejected(E_PRODUCT_MISMATCH)
      else if !ForMachine(policy, r.lic) then Rejected(E_COMPUTER_MISMATCH)
      else Accepted(r.lic)
  }

  method CheckToken(policy: Policy, token: Text) returns (r: Check)
    ensures r == CheckMachine(policy, token)
  {
    hide Verify;
    var code, payload := VerifyToken(policy.keys, policy.verify, token);
    if code != OK {
      return Rejected(code);
    }
    var p := policy.parse(payload);
    if p.Malformed? {
      return Rejected(E_FORMAT);
    }
    var product := AsciiIeq(p.lic.productId, policy.productId);
    if !product {
      return Rejected(E_PRODUCT_MISMATCH);
    }
    var machine := AsciiIeq(p.lic.machineId, policy.machineId);
    if !machine {
      var legacy := false;
      if policy.machineIdLegacy != [] {
        legacy := AsciiIeq(p.lic.machineId, policy.machineIdLegacy);
      }
      if !legacy {
        return Rejected(E_COMPUTER_MISMATCH);
      }
    }
    r := Accepted(p.lic);
  }

  /** A licence is accepted exactly when a vendor key signs its token and it names this product and this machine. */
  lemma CheckExact(policy: Policy, token: Text, lic: License)
    ensures CheckMachine(policy, token) == Accepted(lic) <==>
              exists payload, h, p, s :: BoundLicense(policy, lic, payload) && Accepts(policy.keys, policy.verify, token, payload, h, p, s)
  {
    hide Verify, Accepts, BoundLicense;
    var v := Verify(policy.keys, policy.verify, token);
    if CheckMachine(policy, token) == Accepted(lic) {
      BoundExact(policy, lic, v.payload);
      AcceptedExact(policy.keys, policy.verify, token, v.payload);
      assert BoundLicense(policy, lic, v.payload);
      var h, p, s :| Accepts(policy.keys, policy.verify, token, v.payload, h, p, s);
    }
    forall payload, h, p, s | BoundLicense(policy, lic, payload) && Accepts(policy.keys, policy.verify, token, payload, h, p, s)
      ensures CheckMachine(policy, token) == Accepted(lic)
    {
      BoundExact(policy, lic, payload);
      AcceptedExact(policy.keys, policy.verify, token, payload);
    }
  }

  ghost predicate BoundLicense(policy: Policy, lic: License, payload: Text) {
    policy.parse(payload) == Parsed(lic) && Names(lic.productId, policy.productId) && NamesMachine(policy, lic)
  }

  lemma BoundExact(policy: Policy, lic: License, payload: Text)
    ensures BoundLicense(policy, lic, payload) <==>
              policy.parse(payload) == Parsed(lic) && SameIgnoringCase(lic.productId, policy.productId) && ForMachine(policy, lic)
  {
    hide Names, SameIgnoringCase;
    SameExact(lic.productId, policy.productId);
    SameExact(lic.machineId, policy.machineId);
    SameExact(lic.machineId, policy.machineIdLegacy);
  }

  /** A licence whose machine id differs from both ids of this machine, at some place or in length, is refused. */
  lemma OtherMachineRefused(policy: Policy, token: Text, lic: License)
    requires !Names(lic.machineId, policy.machineId) && !Names(lic.machineId, policy.machineIdLegacy)
    ensures CheckMachine(policy, token) != Accepted(lic)
  {
    hide Names, SameIgnoringCase, Verify;
    SameExact(lic.machineId, policy.machineId);
    SameExact(lic.machineId, policy.machineIdLegacy);
  }

  /** A signed licence for another product, and one for this product but another machine. */
  ghost predicate SignedFor(policy: Policy, token: Text, lic: License) {
    exists payload, h, p, s :: policy.parse(payload) == Parsed(lic) && Accepts(policy.keys, policy.verify, token, payload, h, p, s)
  }

  /** The two mismatch codes say exactly what is wrong with a signed licence. */
  lemma MismatchExact(policy: Policy, token: Text)
    ensures CheckMachine(policy, token) == Rejected(E_PRODUCT_MISMATCH) <==>
              exists lic :: SignedFor(policy, token, lic) && !Names(lic.productId, policy.productId)
    ensures CheckMachine(policy, token) == Rejected(E_COMPUTER_MISMATCH) <==>
              exists lic :: SignedFor(policy, token, lic) && Names(lic.productId, policy.productId) && !NamesMachine(policy, lic)
  {
    hide Verify, Accepts, SameIgnoringCase, Names;
    var v := Verify(policy.keys, policy.verify, token);
    if v.Payload? && policy.parse(v.payload).Parsed? {
      var lic := policy.parse(v.payload).lic;
      SignedPayload(policy, token, v.payload);
      SameExact(lic.productId, policy.productId);
      SameExact(lic.machineId, policy.machineId);
      SameExact(lic.machineId, policy.machineIdLegacy);
      assert SignedFor(policy, token, lic);
    }
    forall lic | SignedFor(policy, token, lic)
      ensures v.Payload? && policy.parse(v.payload) == Parsed(lic)
    {
      var payload, h, p, s :| policy.parse(payload) == Parsed(lic) && Accepts(policy.keys, policy.verify, token, payload, h, p, s);
      AcceptedExact(policy.keys, policy.verify, token, payload);
    }
  }

  lemma BoundSigned(policy: Policy, token: Text, lic: License)
    ensures CheckMachine(policy, token) == Accepted(lic) <==>
              SignedFor(policy, token, lic) && Names(lic.productId, policy.productId) && NamesMachine(policy, lic)
  {
    hide CheckMachine, Accepts, Names, NamesMachine;
    CheckExact(policy, token, lic);
  }

  /** A signed licence settles the verdict: accepted, or refused for product or machine. */
  lemma SignedDecides(policy: Policy, token: Text)
    ensures (exists lic :: SignedFor(policy, token, lic)) ==>
              CheckMachine(policy, token).Accepted? || CheckMachine(policy, token).code == E_PRODUCT_MISMATCH || CheckMachine(policy, token).code == E_COMPUTER_MISMATCH
  {
    hide Verify, Accepts, SameIgnoringCase, ForMachine;
    forall lic | SignedFor(policy, token, lic)
      ensures Verify(policy.keys, policy.verify, token).Payload? && policy.parse(Verify(policy.keys, policy.verify, token).payload) == Parsed(lic)
    {
      var payload, h, p, s :| policy.parse(payload) == Parsed(lic) && Accepts(policy.keys, policy.verify, token, payload, h, p, s);
      AcceptedExact(policy.keys, policy.verify, token, payload);
    }
  }

  /** A token that does not verify is refused with its own code, and a signed payload that is no licence as malformed. */
  lemma RefusalCodes(policy: Policy, token: Text)
    ensures var v := Verify(policy.keys, policy.verify, token);
            CheckMachine(policy, token).Rejected? && CheckMachine(policy, token).code != E_PRODUCT_MISMATCH && CheckMachine(policy, token).code != E_COMPUTER_MISMATCH <==>
              v.Refused? || policy.parse(v.payload).Malformed?
    ensures var v := Verify(policy.keys, policy.verify, token);
            && (v.Refused? ==> CheckMachine(policy, token) == Rejected(v.code))
            && (v.Payload? && policy.parse(v.payload).Malformed? ==> CheckMachine(policy, token) == Rejected(E_FORMAT))
  {
    hide Verify;
  }

  ghost predicate NamesMachine(policy: Policy, lic: License) {
    Names(lic.machineId, policy.machineId) || (policy.machineIdLegacy != [] && Names(lic.machineId, policy.machineIdLegacy))
  }

  lemma SignedPayload(policy: Policy, token: Text, payload: Text)
    requires Verify(policy.keys, policy.verify, token) == Payload(payload)
    ensures exists h, p, s :: Accepts(policy.keys, policy.verify, token, payload, h, p, s)
  {
    hide Verify, Accepts;
    AcceptedExact(policy.keys, policy.verify, token, payload);
  }

  // ---------- what a licence file looks like ----------

  predicate SegmentChar(c: byte) {
    0x41 <= c <= 0x5a || 0x61 <= c <= 0x7a || 0x30 <= c <= 0x39 || c == 0x2d || c == 0x5f
  }

  predicate AllSegment(t: Text) {
    forall i :: 0 <= i < |t| ==> SegmentChar(t[i])
  }

  /** The characters of a part are those of the base64url alphabet. */
  lemma SegmentAlphabet(c: byte)
    ensures SegmentChar(c) <==> B64url.DecVal(c) >= 0
  {}

  /** Three non-empty base64url parts joined by periods. */
  ghost predicate Compact(t: Text) {
    exists h, p, s :: CompactParts(t, h, p, s)
  }

  ghost predicate CompactParts(t: Text, h: Text, p: Text, s: Text) {
    t == h + [PERIOD] + p + [PERIOD] + s && |h| > 0 && |p| > 0 && |s| > 0 && AllSegment(h) && AllSegment(p) && AllSegment(s)
  }

  /** Two periods between three non-empty texts of base64url characters. */
  lemma CompactExact(t: Text, h: Text, p: Text, s: Text)
    ensures CompactParts(t, h, p, s) <==>
              t == h + Ascii(".") + p + Ascii(".") + s && h != [] && p != [] && s != [] && forall i :: 0 <= i < |h + p + s| ==> B64url.DecVal((h + p + s)[i]) >= 0
  {
    assert Ascii(".") == [PERIOD];
    hide SegmentChar, B64url.DecVal;
    var all := h + p + s;
    forall i | 0 <= i < |all|
      ensures SegmentChar(all[i]) <==> B64url.DecVal(all[i]) >= 0
    {
      SegmentAlphabet(all[i]);
    }
    PartsOf(h, p, s);
  }

  lemma PartsOf(h: Text, p: Text, s: Text)
    ensures AllSegment(h + p + s) <==> AllSegment(h) && AllSegment(p) && AllSegment(s)
  {
    hide SegmentChar;
    var all := h + p + s;
    if AllSegment(all) {
      forall i | 0 <= i < |h|
        ensures SegmentChar(h[i])
      {
        assert all[i] == h[i];
      }
      forall i | 0 <= i < |p|
        ensures SegmentChar(p[i])
      {
        assert all[|h| + i] == p[i];
      }
      forall i | 0 <= i < |s|
        ensures SegmentChar(s[i])
      {
        assert all[|h| + |p| + i] == s[i];
      }
    }
  }

  /** The scan of a prefix of the text: periods seen so far, and where the current part starts. */
  ghost predicate Scanned(t: Text, i: nat, dots: nat, seg: nat, d1: nat, d2: nat) {
    && seg <= i <= |t| && AllSegment(t[i - seg..i])
    && (dots == 0 ==> seg == i)
    && (dots == 1 ==> 0 < d1 < i && t[d1] == PERIOD && AllSegment(t[..d1]) && i - seg == d1 + 1)
    && (dots >= 2 ==> 0 < d1 && d1 + 1 < d2 < i && t[d1] == PERIOD && t[d2] == PERIOD && AllSegment(t[..d1]) && AllSegment(t[d1 + 1..d2]))
    && (dots == 2 ==> i - seg == d2 + 1)
    && (dots >= 3 ==> exists d3 :: d2 < d3 < i && t[d3] == PERIOD)
  }

  /** looks_like_jws */
  method LooksLikeJws(t: Text) returns (ok: bool)
    ensures ok <==> Compact(t)
  {
    hide SegmentChar;
    var i, dots, seg := 0, 0, 0;
    ghost var d1, d2 := 0, 0;
    while i < |t|
      invariant Scanned(t, i, dots, seg, d1, d2)
    {
      var ch := t[i];
      if ch == PERIOD {
        if seg == 0 {
          EmptyPart(t, i, dots, d1, d2);
          return false;
        }
        assert AllSegment(t[i - seg..i]);
        if dots == 0 {
          assert t[i - seg..i] == t[..i];
          d1 := i;
        } else if dots == 1 {
          d2 := i;
        }
        dots := dots + 1;
        seg := 0;
      } else if SegmentChar(ch) {
        assert t[i - seg..i + 1] == t[i - seg..i] + [ch];
        seg := seg + 1;
      } else {
        BadCharacter(t, i);
        return false;
      }
      i := i + 1;
    }
    ok := dots == 2 && seg > 0;
    ScanDecides(t, dots, seg, d1, d2);
  }

  lemma PeriodNotSegment()
    ensures !SegmentChar(PERIOD)
  {}

  /** A compact text has exactly the two periods between its parts. */
  lemma CompactPeriods(t: Text, h: Text, p: Text, s: Text, i: nat)
    requires CompactParts(t, h, p, s) && i < |t|
    ensures t[i] == PERIOD <==> i == |h| || i == |h| + 1 + |p|
    ensures t[i] == PERIOD || SegmentChar(t[i])
  {
    PeriodNotSegment();
    hide SegmentChar;
    var d2 := |h| + 1 + |p|;
    if i < |h| {
      assert t[i] == h[i];
    } else if |h| < i < d2 {
      assert t[i] == p[i - |h| - 1];
    } else if i > d2 {
      assert t[i] == s[i - d2 - 1];
    }
  }

  lemma BadCharacter(t: Text, i: nat)
    requires i < |t| && t[i] != PERIOD && !SegmentChar(t[i])
    ensures !Compact(t)
  {
    forall h, p, s
      ensures !CompactParts(t, h, p, s)
    {
      if CompactParts(t, h, p, s) {
        CompactPeriods(t, h, p, s, i);
      }
    }
  }

  /** A period right after another one, or at the start. */
  lemma EmptyPart(t: Text, i: nat, dots: nat, d1: nat, d2: nat)
    requires i < |t| && t[i] == PERIOD && Scanned(t, i, dots, 0, d1, d2)
    ensures !Compact(t)
  {
    hide SegmentChar;
    forall h, p, s
      ensures !CompactParts(t, h, p, s)
    {
      if CompactParts(t, h, p, s) {
        CompactPeriods(t, h, p, s, i);
        if i > 0 {
          if dots >= 1 {
            CompactPeriods(t, h, p, s, d1);
          }
          if dots >= 2 {
            CompactPeriods(t, h, p, s, d2);
          }
        }
      }
    }
  }

  lemma ScanDecides(t: Text, dots: nat, seg: nat, d1: nat, d2: nat)
    requires Scanned(t, |t|, dots, seg, d1, d2)
    ensures dots == 2 && seg > 0 <==> Compact(t)
  {
    hide SegmentChar;
    if dots == 2 && seg > 0 {
      assert t == t[..d1] + [PERIOD] + t[d1 + 1..d2] + [PERIOD] + t[d2 + 1..];
      assert t[|t| - seg..|t|] == t[d2 + 1..];
      assert CompactParts(t, t[..d1], t[d1 + 1..d2], t[d2 + 1..]);
    } else {
      forall h, p, s
        ensures !CompactParts(t, h, p, s)
      {
        if CompactParts(t, h, p, s) {
          NotScanned(t, dots, seg, d1, d2, h, p, s);
        }
      }
    }
  }

  /** No part of segment characters holds a period. */
  lemma NoPeriodIn(t: Text, a: nat, z: nat)
    requires a <= z <= |t| && AllSegment(t[a..z])
    ensures forall i :: a <= i < z ==> t[i] != PERIOD
  {
    PeriodNotSegment();
    hide SegmentChar;
    forall i | a <= i < z
      ensures t[i] != PERIOD
    {
      assert t[a..z][i - a] == t[i];
    }
  }

  lemma NotScanned(t: Text, dots: nat, seg: nat, d1: nat, d2: nat, h: Text, p: Text, s: Text)
    requires Scanned(t, |t|, dots, seg, d1, d2) && CompactParts(t, h, p, s)
    ensures dots == 2 && seg > 0
  {
    hide SegmentChar;
    forall i | 0 <= i < |t|
      ensures t[i] == PERIOD <==> i == |h| || i == |h| + 1 + |p|
    {
      CompactPeriods(t, h, p, s, i);
    }
    CompactPeriods(t, h, p, s, |h|);
    CompactPeriods(t, h, p, s, |h| + 1 + |p|);
    NoPeriodIn(t, |t| - seg, |t|);
    if dots == 1 {
      assert t[0..d1] == t[..d1];
      NoPeriodIn(t, 0, d1);
    }
  }

  // ---------- import: what the user's file is trimmed to ----------

  predicate DocumentBlank(c: byte) {
    Blank(c) || c == 0
  }

  function TrimStart(t: Text): (r: Text)
    ensures |r| <= |t|
  {
    if |t| > 0 && DocumentBlank(t[0]) then TrimStart(t[1..]) else t
  }

  function TrimEnd(t: Text): (r: Text)
    ensures |r| <= |t|
  {
    if |t| > 0 && DocumentBlank(t[|t| - 1]) then TrimEnd(t[..|t| - 1]) else t
  }

  const BOM: Text := [0xef, 0xbb, 0xbf]

  /** The token inside a document: without a byte order mark and surrounding blanks. */
  function Trimmed(document: Text): Text {
    TrimEnd(TrimStart(if |document| >= 3 && document[..3] == BOM then document[3..] else document))
  }

  method SkipBlanks(s: Text) returns (t: Text)
    ensures t == TrimStart(s)
  {
    var a := 0;
    assert s[0..] == s;
    while a < |s| && DocumentBlank(s[a])
      invariant 0 <= a <= |s| && TrimStart(s[a..]) == TrimStart(s)
    {
      assert s[a..][1..] == s[a + 1..];
      a := a + 1;
    }
    t := s[a..];
  }

  method CutBlanks(s: Text) returns (t: Text)
    ensures t == TrimEnd(s)
  {
    var z := |s|;
    assert s[..z] == s;
    while z > 0 && DocumentBlank(s[z - 1])
      invariant 0 <= z <= |s| && TrimEnd(s[..z]) == TrimEnd(s)
      decreases z
    {
      assert s[..z][..z - 1] == s[..z - 1];
      z := z - 1;
    }
    t := s[..z];
  }

  method TrimDocument(document: Text) returns (t: Text)
    ensures t == Trimmed(document)
  {
    t := document;
    if |t| >= 3 && t[0] == 0xef && t[1] == 0xbb && t[2] == 0xbf {
      assert t[..3] == BOM;
      t := t[3..];
    }
    t := SkipBlanks(t);
    t := CutBlanks(t);
  }

  /** Trimming twice changes nothing more. */
  lemma TrimmedOnce(document: Text)
    ensures Trimmed(Trimmed(document)) == Trimmed(document) || (|Trimmed(document)| >= 3 && Trimmed(document)[..3] == BOM)
  {
    var s := TrimStart(if |document| >= 3 && document[..3] == BOM then document[3..] else document);
    StartClean(if |document| >= 3 && document[..3] == BOM then document[3..] else document);
    EndClean(s);
    hide TrimStart, TrimEnd;
    var t := TrimEnd(s);
    StartNothing(t);
    EndNothing(t);
  }

  lemma {:induction false} StartClean(t: Text)
    ensures var r := TrimStart(t); |r| > 0 ==> !DocumentBlank(r[0])
  {
    if |t| > 0 {
      StartClean(t[1..]);
    }
  }

  lemma {:induction false} EndClean(t: Text)
    ensures var r := TrimEnd(t); (|r| > 0 ==> !DocumentBlank(r[|r| - 1]) && r[0] == t[0])
  {
    if |t| > 0 {
      EndClean(t[..|t| - 1]);
    }
  }

  lemma {:induction false} StartRest(t: Text)
    ensures var k := |t| - |TrimStart(t)|; TrimStart(t) == t[k..] && forall i :: 0 <= i < k ==> DocumentBlank(t[i])
  {
    if |t| > 0 && DocumentBlank(t[0]) {
      StartRest(t[1..]);
      var k := |t| - |TrimStart(t)|;
      assert t[1..][k - 1..] == t[k..];
      forall i | 0 < i < k
        ensures DocumentBlank(t[i])
      {
        assert t[1..][i - 1] == t[i];
      }
    }
  }

  lemma {:induction false} EndRest(t: Text)
    ensures var k := |TrimEnd(t)|; TrimEnd(t) == t[..k] && forall i :: k <= i < |t| ==> DocumentBlank(t[i])
  {
    if |t| > 0 && DocumentBlank(t[|t| - 1]) {
      EndRest(t[..|t| - 1]);
    }
  }

  /** Space, tab, line feed, carriage return and NUL. */
  ghost predicate DocumentSpace(c: byte) {
    c in {0x00, 0x09, 0x0a, 0x0d, 0x20}
  }

  lemma Between(body: Text) returns (a: nat, z: nat)
    ensures a <= z <= |body| && TrimEnd(TrimStart(body)) == body[a..z]
    ensures forall i :: 0 <= i < a || z <= i < |body| ==> DocumentBlank(body[i])
    ensures a < z ==> !DocumentBlank(body[a]) && !DocumentBlank(body[z - 1])
  {
    hide DocumentBlank;
    var s := TrimStart(body);
    StartRest(body);
    StartClean(body);
    EndRest(s);
    EndClean(s);
    a := |body| - |s|;
    z := a + |TrimEnd(s)|;
    hide TrimStart, TrimEnd;
    forall i | z <= i < |body|
      ensures DocumentBlank(body[i])
    {
      assert body[i] == s[i - a];
    }
    if a < z {
      assert TrimEnd(s)[z - a - 1] == body[z - 1];
    }
  }

  lemma BlankExact(c: byte)
    ensures DocumentBlank(c) <==> DocumentSpace(c)
  {}

  /** The token of a document is the stretch between its outermost characters that are not blank, after a byte order mark. */
  lemma TrimmedExact(document: Text) returns (body: Text, a: nat, z: nat)
    ensures body == if |document| >= 3 && document[0] == 0xef && document[1] == 0xbb && document[2] == 0xbf then document[3..] else document
    ensures a <= z <= |body| && Trimmed(document) == body[a..z]
    ensures forall i :: 0 <= i < a || z <= i < |body| ==> DocumentSpace(body[i])
    ensures a < z ==> !DocumentSpace(body[a]) && !DocumentSpace(body[z - 1])
  {
    hide DocumentBlank, DocumentSpace, TrimStart, TrimEnd;
    assert |document| >= 3 ==> document[..3] == [document[0], document[1], document[2]];
    body := if |document| >= 3 && document[..3] == BOM then document[3..] else document;
    a, z := Between(body);
    forall i | 0 <= i < |body|
      ensures DocumentBlank(body[i]) <==> DocumentSpace(body[i])
    {
      BlankExact(body[i]);
    }
  }

  lemma StartNothing(t: Text)
    requires |t| > 0 ==> !DocumentBlank(t[0])
    ensures TrimStart(t) == t
  {}

  lemma EndNothing(t: Text)
    requires |t| > 0 ==> !DocumentBlank(t[|t| - 1])
    ensures TrimEnd(t) == t
  {}
}
