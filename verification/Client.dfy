/** The client: install, check, activate, deactivate and import flows over arbitrary port answers. */
module Client {
  import opened Radix
  import opened JsonTokenizer
  import JsonComplete
  import JsonGrammar
  import JsonStructure
  import JsonNavigate
  import JsonString
  import Calendar
  import CivilTime
  import opened Jws
  import opened License
  import Options
  import opened Ports
  import opened Requests
  import opened History

  const E_NO_LICENSE: int := -6
  const E_HTTP: int := -7
  const E_API: int := -8
  const E_STORAGE: int := -9
  const E_AUTH: int := -12

  const INSTALLED: int := 0
  const NOT_A_LICENSE: int := 1
  const NO_PUBLIC_KEY: int := 2
  const SIGNATURE_INVALID: int := 3
  const WRONG_PRODUCT: int := 4
  const WRONG_COMPUTER: int := 5
  const WRITE_FAILED: int := 6

  /** The vendor's policy, this machine's name and the ports that are present. */
  datatype Config = Config(policy: Policy, machineName: Text, hasTimesync: bool, hasHttp: bool, hasRead: bool, hasWrite: bool, hasSleep: bool)

  /** The text inside a pair of quotes, or the text itself. */
  function Unquoted(s: Text): Text {
    if |s| >= 2 && s[0] == QUOTE && s[|s| - 1] == QUOTE then s[1..|s| - 1] else s
  }

  /** The second the server tells in answer to the request at port call n, if it tells one. */
  ghost function ServerSecond(w: World, n: nat): Options.Option<int> {
    var r := ReplyTo(w, n);
    if r.Answered? && IsSuccess(r.status) then
      var stamp := CivilTime.Parse(Unquoted(r.body));
      if stamp.Some? && CivilTime.InRange(stamp.value) then Options.Some(CivilTime.Epoch(stamp.value)) else Options.None
    else Options.None
  }

  /** A successful answer that is a timestamp of a second, quoted or bare, tells that second. */
  lemma StampHeard(w: World, n: nat, s: Text, second: int)
    requires Calendar.Reads(s, second) && ReplyTo(w, n).Answered? && IsSuccess(ReplyTo(w, n).status)
    requires ReplyTo(w, n).body == s || ReplyTo(w, n).body == Ascii("\"") + s + Ascii("\"")
    ensures ServerSecond(w, n) == Options.Some(second)
  {
    hide ReplyTo, CivilTime.Epoch, CivilTime.InRange, CivilTime.ParseClock;
    assert Ascii("\"") == [QUOTE];
    var q := [QUOTE] + s + [QUOTE];
    assert q[1..|q| - 1] == s;
    assert CivilTime.DigitsAt(s, 0, 4) >= 0;
    FirstDigit(s, 4);
  }

  lemma {:induction false} FirstDigit(s: Text, n: nat)
    requires n > 0 && CivilTime.DigitsAt(s, 0, n) >= 0
    ensures |s| > 0 && s[0] != QUOTE
  {
    if n > 1 {
      FirstDigit(s, n - 1);
    }
  }

  /** The key of a computer's id in the server's record, in either spelling. */
  const ID: Text := [0x69, 0x64]
  const ID_CAPITAL: Text := [0x49, 0x64]

  /** The record is a JSON text of at most 64 tokens whose id is a string that fits 64 bytes. */
  ghost predicate HasId(body: Text) {
    var r := Tokenize(body, 64);
    && r.Running?
    && (JsonStructure.AcceptedWellFormed(body, 64);
        var doc := JsonNavigate.Doc(body, r.m.toks);
        var lower := JsonNavigate.FindMember(doc, 0, ID);
        var t := if lower < 0 then JsonNavigate.FindMember(doc, 0, ID_CAPITAL) else lower;
        && KindAt(doc.toks, t) == Str
        && var id := JsonString.Unescape(JsonNavigate.Raw(doc, t)); id.Some? && |id.value| < 64)
  }

  /** A record that is a JSON text has the id of its "id" member, or else of its "Id" member, and only a string is one. */
  lemma IdFound(pre: Text, v: JsonGrammar.Value, post: Text)
    requires JsonGrammar.Spaces(pre) && JsonGrammar.ValidValue(v) && JsonGrammar.Spaces(post)
    requires |JsonComplete.Document(pre, v, post)| <= INT_MAX && JsonGrammar.Count(v) <= 64
    ensures var lower := if v.Obj? then JsonNavigate.Lookup(v.members, Ascii("id")) else Options.None;
            var m := if v.Obj? && lower.None? then JsonNavigate.Lookup(v.members, Ascii("Id")) else lower;
            HasId(JsonComplete.Document(pre, v, post)) <==>
              m.Some? && m.value.Quoted? && JsonString.Unescape(m.value.raw).Some? && |JsonString.Unescape(m.value.raw).value| < 64
  {
    hide JsonGrammar.Spaces, JsonGrammar.Count, JsonComplete.Document, JsonNavigate.Lookup, JsonNavigate.FindMember, Tokenize;
    hide JsonGrammar.Render, JsonGrammar.ValidValue, JsonString.Unescape;
    assert ID == Ascii("id") && ID_CAPITAL == Ascii("Id");
    JsonNavigate.LookupInText(pre, v, post, 64, ID);
    JsonNavigate.LookupInText(pre, v, post, 64, ID_CAPITAL);
  }

  /** The text still fits a buffer once escaped. */
  ghost predicate Fits(s: Text, cap: nat) {
    |JsonString.Escape(s)| < cap
  }

  /** What a refresh gets from the server: an error, or the text it takes for a licence. */
  datatype Fetch = NotFetched(code: int) | Fetched(token: Text, next: nat)

  const NO_LICENSE: License := License([], Unknown, 0, 0, 0, 0, false, 0, [], [])

  class Client {
    const cfg: Config
    const world: World
    var license: License
    var status: Status
    var hasLicense: bool
    var evalNow: int
    var timeFloor: int
    var lastNetFailure: NetFailure
    var lastHttpStatus: int
    var resp: Buffered
    /** Trusted times and adoptions since the client was made. */
    ghost var events: seq<Event>
    /** What storage held when the client was made. */
    ghost const initial: Text

    constructor (cfg: Config, world: World)
      ensures this.cfg == cfg && this.world == world && initial == world.stored && Valid() && events == [] && !hasLicense
    {
      this.cfg, this.world := cfg, world;
      license, status, hasLicense := NO_LICENSE, Unknown, false;
      evalNow, timeFloor := 0, 0;
      lastNetFailure, lastHttpStatus, resp := NoFailure, 0, [];
      events, initial := [], world.stored;
    }

    /** The current licence and its status are those of the last adoption. */
    ghost predicate Current()
      reads this
    {
      var last := LastAdopted(events);
      (hasLicense <==> last.Adopted?) && (hasLicense ==> license == last.lic && status == last.status)
    }

    /** Storage holds what it held at first, or a token the policy accepts. */
    ghost predicate StoredOk()
      reads this, world
    {
      world.stored == initial || CheckMachine(cfg.policy, world.stored).Accepted?
    }

    ghost predicate Valid()
      reads this, world
    {
      timeFloor == Floor(events) && Honest(cfg.policy, events) && Current() && StoredOk()
    }

    // ---------- what the ports' answers amount to ----------

    /** The code of a request that got no answer to look at. */
    ghost function NoAnswer(r: Reply): int {
      match r
      case TooLong => E_ARG
      case Lost(_) => E_HTTP
      case Denied(status, _) => if status == 407 then E_HTTP else E_AUTH
      case Answered(_, _) => OK
    }

    /** The code of a request at port call n; a conflict counts as success where the row may exist already. */
    ghost function RequestCode(n: nat, conflictOk: bool): (c: int)
      ensures c == OK || c == E_HTTP || c == E_AUTH || c == E_ARG || c == E_API
      ensures !cfg.hasHttp ==> c == E_HTTP
    {
      if !cfg.hasHttp then E_HTTP
      else
        var r := ReplyTo(world, n);
        if !r.Answered? then NoAnswer(r)
        else if IsSuccess(r.status) || (conflictOk && r.status == 409) then OK
        else E_API
    }

    ghost predicate IdentityFits() {
      && Fits(cfg.policy.machineId, 128) && Fits(cfg.machineName, 256)
      && (cfg.policy.machineIdLegacy != [] ==> Fits(cfg.policy.machineIdLegacy, 128))
    }

    /** What each code of a request says of the attempt that counted: it went out to no avail, was refused, or was answered. */
    lemma RequestCodeExact(n: nat, conflictOk: bool)
      ensures var a, c := world.sendAt(LastTry(world, n + 1)), RequestCode(n, conflictOk);
              var out := cfg.hasHttp && world.urlFitsAt(n);
              var answered := out && a.ok && a.status != 0;
              var good := 200 <= a.status <= 299 || (conflictOk && a.status == 409);
              && (c == E_ARG <==> cfg.hasHttp && !world.urlFitsAt(n))
              && (c == E_HTTP <==> !cfg.hasHttp || (out && !answered) || (answered && a.status == 407))
              && (c == E_AUTH <==> answered && (a.status == 401 || a.status == 403))
              && (c == OK <==> answered && good)
              && (c == E_API <==> answered && !good && a.status != 401 && a.status != 403 && a.status != 407)
    {
      hide LastTry;
    }

    /** Registering this machine and reading its id back, from port call n on. */
    ghost function ComputerCode(n: nat): (c: int)
      ensures c == OK || c == E_HTTP || c == E_AUTH || c == E_ARG || c == E_API || c == E_FORMAT
      ensures !cfg.hasHttp ==> c == E_HTTP || c == E_ARG
    {
      if !IdentityFits() then E_ARG
      else if RequestCode(n, true) != OK then RequestCode(n, true)
      else if RequestCode(After(world, n), false) != OK then RequestCode(After(world, n), false)
      else if HasId(ReplyTo(world, After(world, n)).body) then OK
      else E_FORMAT
    }

    /** The four requests of a refresh from port call n on. */
    ghost function Fetch(n: nat): (f: Fetch)
      ensures f.NotFetched? ==> f.code == E_HTTP || f.code == E_AUTH || f.code == E_ARG || f.code == E_API || f.code == E_FORMAT
      ensures !cfg.hasHttp ==> f.NotFetched? && (f.code == E_HTTP || f.code == E_ARG)
    {
      var n2 := After(world, After(world, n));
      var n3 := After(world, n2);
      if ComputerCode(n) != OK then NotFetched(ComputerCode(n))
      else if RequestCode(n2, true) != OK then NotFetched(RequestCode(n2, true))
      else if RequestCode(n3, false) != OK then NotFetched(RequestCode(n3, false))
      else
        var body := ReplyTo(world, n3).body;
        if |body| == 0 || body[0] == 0x3c then NotFetched(E_FORMAT) else Fetched(body, After(world, n3))
    }

    /** A refresh gets its text exactly when this machine's names fit, all four requests succeed, the record has an id, and
        the last answer is neither empty nor a page of markup; otherwise the code is that of the first thing that went wrong. */
    lemma FetchExact(n: nat)
      ensures var n1, f := After(world, n), Fetch(n);
              var n2 := After(world, n1);
              var n3 := After(world, n2);
              var c0, c1, c2, c3 := RequestCode(n, true), RequestCode(n1, false), RequestCode(n2, true), RequestCode(n3, false);
              var id, body := c1 == OK && HasId(ReplyTo(world, n1).body), if c3 == OK then ReplyTo(world, n3).body else [];
              var names := |JsonString.Escape(cfg.policy.machineId)| < 128 && |JsonString.Escape(cfg.machineName)| < 256
                && (cfg.policy.machineIdLegacy != [] ==> |JsonString.Escape(cfg.policy.machineIdLegacy)| < 128);
              && (f == Fetched(body, After(world, n3)) <==> names && c0 == c1 == c2 == c3 == OK && id && body != [] && body[0] != '<' as int)
              && (f.NotFetched? && !names ==> f.code == E_ARG)
              && (names && c0 != OK ==> f == NotFetched(c0))
              && (names && c0 == OK && c1 != OK ==> f == NotFetched(c1))
              && (names && c0 == c1 == OK && !id ==> f == NotFetched(E_FORMAT))
              && (names && c0 == c1 == OK && id && c2 != OK ==> f == NotFetched(c2))
              && (names && c0 == c1 == c2 == OK && id && c3 != OK ==> f == NotFetched(c3))
              && (names && c0 == c1 == c2 == c3 == OK && id && f.NotFetched? ==> f.code == E_FORMAT)
    {
      hide ReplyTo, After, RequestCode, HasId, JsonString.Escape;
    }

    /** The code of a refresh from port call n on. */
    ghost function RefreshCode(n: nat): int {
      match Fetch(n)
      case NotFetched(c) => c
      case Fetched(token, next) =>
        match CheckMachine(cfg.policy, token)
        case Rejected(c) => c
        case Accepted(_) => if !cfg.hasWrite || world.writeAt(next) == Written then OK else E_STORAGE
    }

    /** The port call after a refresh that got a text: an accepted one is also written. */
    ghost function RefreshEnd(n: nat): nat
      requires Fetch(n).Fetched?
    {
      Fetch(n).next + if cfg.hasWrite && CheckMachine(cfg.policy, Fetch(n).token).Accepted? then 1 else 0
    }

    /** The server no longer knows the licence that a patch at port call n names. */
    ghost predicate RowGone(n: nat) {
      cfg.hasHttp && ReplyTo(world, n).Answered? && ReplyTo(world, n).status == 404
    }

    /** The code of a patch at port call n: of the request, or where the row is gone, of a refresh and a second request. */
    ghost function PatchCode(n: nat): int {
      if !RowGone(n) then RequestCode(n, false)
      else if RefreshCode(After(world, n)) != OK then RefreshCode(After(world, n))
      else RequestCode(RefreshEnd(After(world, n)), false)
    }

    /** The port call after a patch that the server agreed to. */
    ghost function PatchEnd(n: nat): nat
      requires PatchCode(n) == OK
    {
      if RowGone(n) then After(world, RefreshEnd(After(world, n))) else After(world, n)
    }

    /** The code of activation and deactivation from the patch on: of the patch, else of the refresh that follows. */
    ghost function ReceiptCode(n: nat, receipt: Text): int {
      if !Fits(receipt, 256) then E_ARG
      else if PatchCode(n) != OK then PatchCode(n)
      else RefreshCode(PatchEnd(n))
    }

    /** The time an accepted licence is evaluated at: never before its own stamps. */
    ghost function EvaluatedAt(lic: License, now: int, floor: int): int {
      Max(now, Stamp(lic.updated, Stamp(lic.created, floor)))
    }

    /** The code of a check from port call n on, with storage, time and floor as they are then: an accepted cache entry that
        has not expired settles it, otherwise a refresh does, and a network failure counts as success with a licence held. */
    ghost function CheckCode(n: nat, stored: Text, now: int, floor: int, held: bool): int {
      var cached := CachedText(n, stored);
      var c, r := CheckMachine(cfg.policy, cached), RefreshCode(n + if cfg.hasRead then 1 else 0);
      var adopted := cached != [] && c.Accepted?;
      if adopted && StatusAt(c.lic, EvaluatedAt(c.lic, now, floor)) != Expired then OK
      else if r == E_HTTP && (held || adopted) then OK
      else if r == E_HTTP && !cfg.hasHttp then E_NO_LICENSE
      else r
    }

    /** What those four requests send. */
    ghost function FetchLog(n: nat): seq<Sent> {
      var n1 := After(world, n);
      var n2 := After(world, n1);
      Tried(world, PostComputer, n) + Tried(world, GetComputer, n1) + Tried(world, PostLicense, n2) + Tried(world, GetLicense, After(world, n2))
    }

    /** Every request from port call n on has an address that fits and a first answer with a success status. */
    ghost predicate GoodServer(n: nat) {
      cfg.hasHttp && forall i: nat :: i < 4 ==> GoodAnswer(n + 2 * i)
    }

    ghost predicate GoodAnswer(n: nat) {
      world.urlFitsAt(n) && world.sendAt(n + 1).ok && IsSuccess(world.sendAt(n + 1).status)
    }

    /** A good server's fourth answer is what a refresh takes for the licence, after four requests. */
    lemma GoodServerFetch(n: nat)
      requires GoodServer(n) && IdentityFits() && HasId(world.sendAt(n + 3).body)
      requires world.sendAt(n + 7).body != [] && world.sendAt(n + 7).body[0] != 0x3c
      ensures Fetch(n) == Fetched(world.sendAt(n + 7).body, n + 8)
      ensures FetchLog(n) == [Sent(PostComputer, n + 1), Sent(GetComputer, n + 3), Sent(PostLicense, n + 5), Sent(GetLicense, n + 7)]
    {
      hide HasId, ReplyTo, After, Tried;
      assert GoodAnswer(n + 2 * 0) && GoodAnswer(n + 2 * 1) && GoodAnswer(n + 2 * 2) && GoodAnswer(n + 2 * 3);
      FirstAnswerCounts(world, PostComputer, n);
      FirstAnswerCounts(world, GetComputer, n + 2);
      FirstAnswerCounts(world, PostLicense, n + 4);
      FirstAnswerCounts(world, GetLicense, n + 6);
    }

    /** Without an answer nothing is fetched, and the code says so. */
    lemma UnreachableFetch(n: nat)
      requires IdentityFits()
      requires !cfg.hasHttp || (world.urlFitsAt(n) && forall j :: n < j <= n + 3 ==> !world.sendAt(j).ok)
      ensures Fetch(n) == NotFetched(E_HTTP)
    {
      if cfg.hasHttp {
        NoAnswerLost(world, n);
      }
    }

    /** The port call after a request, if requests are made at all. */
    ghost function Next(n: nat): nat {
      if cfg.hasHttp then After(world, n) else n
    }

    // ---------- requests ----------

    /** backoff_wait: never more than the ceiling in total. */
    method BackoffWait(ms: nat, total: nat) returns (total': nat)
      requires total <= TOTAL_WAIT_CAP_MS
      modifies world`slept
      ensures total <= total' <= TOTAL_WAIT_CAP_MS && total' == (if total + ms > TOTAL_WAIT_CAP_MS then TOTAL_WAIT_CAP_MS else total + ms)
      ensures world.slept == old(world.slept) + (if cfg.hasSleep then total' - total else 0)
    {
      total' := total;
      if ms == 0 {
        return;
      }
      var wait := ms;
      if total + wait > TOTAL_WAIT_CAP_MS {
        wait := TOTAL_WAIT_CAP_MS - total;
      }
      total' := total + wait;
      if cfg.hasSleep && wait > 0 {
        world.Sleep(wait);
      }
    }

    /** The wait before another attempt: Retry-After in a 32-bit product, or doubling from the base. */
    function Backoff(retryAfter: int, attempt: nat): nat
      requires 1 <= attempt <= 3
    {
      var ms := if retryAfter >= 0 then retryAfter * 1000 % B32 else if attempt == 1 then BACKOFF_BASE_MS else if attempt == 2 then 2 * BACKOFF_BASE_MS else 4 * BACKOFF_BASE_MS;
      if ms > BACKOFF_CAP_MS then BACKOFF_CAP_MS else ms
    }

    /** The server answered a request made since port call number `since` with this status. */
    ghost predicate AnsweredSince(since: nat, httpStatus: int)
      reads this, world
    {
      exists n: nat :: since <= n < world.calls && world.sendAt(n).ok && world.sendAt(n).status == httpStatus
    }

    /** What a request leaves in the client. */
    ghost predicate Shows(r: Reply, code: int, httpStatus: int)
      reads this
    {
      code == NoAnswer(r)
      && (r.Lost? ==> lastNetFailure == r.failure)
      && (r.Denied? ==> lastHttpStatus == r.status && resp == r.body && lastNetFailure == (if r.status == 407 then Proxy else NoFailure))
      && (r.Answered? ==> httpStatus == lastHttpStatus == r.status && resp == r.body && lastNetFailure == NoFailure)
    }

    /** send_req: at most three attempts and ten seconds of waiting; refusals of access are final. */
    method SendReq(request: Request) returns (code: int, httpStatus: int)
      modifies this`resp, this`lastHttpStatus, this`lastNetFailure, world`calls, world`sent, world`log, world`slept
      ensures world.calls == Next(old(world.calls))
      ensures !cfg.hasHttp ==> code == E_HTTP && world.log == old(world.log) && world.slept == old(world.slept)
      ensures cfg.hasHttp ==> Shows(ReplyTo(world, old(world.calls)), code, httpStatus)
      ensures cfg.hasHttp ==> world.log == old(world.log) + Tried(world, request, old(world.calls))
      ensures cfg.hasHttp && world.urlFitsAt(old(world.calls)) ==>
        world.slept == old(world.slept) + if cfg.hasSleep then Waits(world, old(world.calls) + 1) else 0
      ensures code == E_ARG || !cfg.hasHttp ==> resp == old(resp) && lastHttpStatus == old(lastHttpStatus) && lastNetFailure == old(lastNetFailure)
      ensures world.sent <= old(world.sent) + HTTP_ATTEMPTS && world.slept <= old(world.slept) + TOTAL_WAIT_CAP_MS
      ensures code == OK ==> AnsweredSince(old(world.calls), httpStatus)
      ensures code == OK || code == E_HTTP || code == E_AUTH || code == E_ARG
      ensures code == E_HTTP && cfg.hasHttp ==> lastNetFailure != NoFailure
    {
      hide ReplyTo, After, Tried, Waits, LastTry, Wait, WaitsFor;
      httpStatus := 0;
      if !cfg.hasHttp {
        return E_HTTP, httpStatus;
      }
      ghost var n := world.calls;
      var fits := world.UrlFits();
      if !fits {
        Unsent(world, request, n);
        return E_ARG, httpStatus;
      }
      code, httpStatus := SendAttempts(request);
      WentOut(world, request, n);
      assert world.sendAt(LastTry(world, n + 1)) == world.sendAt(world.calls - 1);
    }

    /** The attempts of a request whose address fits. */
    method SendAttempts(request: Request) returns (code: int, httpStatus: int)
      modifies this`resp, this`lastHttpStatus, this`lastNetFailure, world`calls, world`sent, world`log, world`slept
      ensures world.calls == LastTry(world, old(world.calls)) + 1 && world.sent == old(world.sent) + (world.calls - old(world.calls))
      ensures Shows(ReplyOf(world.sendAt(world.calls - 1)), code, httpStatus)
      ensures world.log == old(world.log) + Attempts(request, old(world.calls), world.calls - old(world.calls))
      ensures world.slept == old(world.slept) + if cfg.hasSleep then WaitsFor(world, old(world.calls), world.calls - 1 - old(world.calls)) else 0
    {
      hide LastTry, Wait, WaitsFor, Attempts, IsTransient, Retried, AllRetried;
      httpStatus := 0;
      FirstAttempt(world, request, world.calls);
      ghost var first := world.calls;
      NextWait(world, first, 1);
      var total := 0;
      var attempt := 1;
      while attempt <= HTTP_ATTEMPTS
        invariant 1 <= attempt <= 3 && world.sent == old(world.sent) + attempt - 1
        invariant world.slept == old(world.slept) + if cfg.hasSleep then total else 0
        invariant world.calls == first + attempt - 1 && AllRetried(world, first, attempt - 1)
        invariant world.log == old(world.log) + Attempts(request, first, attempt - 1)
        invariant total == WaitsFor(world, first, attempt - 1)
        decreases 4 - attempt
      {
        var a := world.Send(request);
        NextWait(world, first, attempt);
        AttemptsStep(request, first, attempt - 1);
        LastAttempt(world, first, attempt);
        if a.ok && a.status != 0 {
          resp := a.body;
          lastHttpStatus, lastNetFailure := a.status, NoFailure;
          if a.status == 407 {
            lastNetFailure := Proxy;
            return E_HTTP, httpStatus;
          }
          if a.status == 401 || a.status == 403 {
            return E_AUTH, httpStatus;
          }
          if !IsTransient(a.status) || attempt == HTTP_ATTEMPTS {
            return OK, a.status;
          }
          total := BackoffWait(Backoff(a.retryAfter, attempt), total);
        } else {
          lastNetFailure := if a.failure != NoFailure then a.failure else UnknownFailure;
          if attempt == HTTP_ATTEMPTS {
            return E_HTTP, httpStatus;
          }
          total := BackoffWait(Backoff(-1, attempt), total);
        }
        attempt := attempt + 1;
      }
      assert false;
    }

    lemma AttemptsStep(request: Request, first: nat, k: nat)
      ensures Attempts(request, first, 0) == [] && Attempts(request, first, k + 1) == Attempts(request, first, k) + [Sent(request, first + k)]
    {}

    ghost predicate AllRetried(w: World, first: nat, k: nat) {
      forall j :: first <= j < first + k ==> Retried(w.sendAt(j))
    }

    lemma FirstAttempt(w: World, request: Request, first: nat)
      ensures Attempts(request, first, 0) == [] && AllRetried(w, first, 0)
    {}

    /** An attempt is the last one unless it is to be retried and there is another one left. */
    lemma LastAttempt(w: World, first: nat, attempt: nat)
      requires 1 <= attempt <= 3 && AllRetried(w, first, attempt - 1)
      ensures var a := w.sendAt(first + attempt - 1);
              && (Retried(a) <==> !Delivered(a) || IsTransient(a.status))
              && (a.status == 401 || a.status == 403 || a.status == 407 ==> !IsTransient(a.status))
              && (attempt == 3 || !Retried(a) ==> LastTry(w, first) == first + attempt - 1)
              && (Retried(a) ==> AllRetried(w, first, attempt))
    {
      LastTryExact(w, first, first + attempt - 1);
      hide LastTry;
    }

    lemma NextWait(w: World, first: nat, attempt: nat)
      requires 1 <= attempt <= 3
      ensures attempt <= 2 ==> WaitsFor(w, first, attempt) == WaitsFor(w, first, attempt - 1) + Wait(w.sendAt(first + attempt - 1), attempt)
      ensures attempt <= 2 ==>
        Wait(w.sendAt(first + attempt - 1), attempt)
          == Backoff(if Delivered(w.sendAt(first + attempt - 1)) then w.sendAt(first + attempt - 1).retryAfter else -1, attempt)
      ensures WaitsFor(w, first, 0) == 0
    {}

    // ---------- trusted time ----------

    /** GET DateTime: the second the answer denotes, quoted or bare, if the answer is a timestamp. */
    method FetchServerTime() returns (code: int, t: int)
      modifies this`resp, this`lastHttpStatus, this`lastNetFailure, world`calls, world`sent, world`log, world`slept
      ensures world.calls == Next(old(world.calls)) && old(world.log) <= world.log
      ensures code == OK <==> cfg.hasHttp && ServerSecond(world, old(world.calls)).Some?
      ensures code == OK ==> t == ServerSecond(world, old(world.calls)).value
    {
      hide CivilTime.Parse, CivilTime.Epoch, CivilTime.InRange, ReplyTo, After;
      t := 0;
      var httpStatus;
      code, httpStatus := SendReq(GetTime);
      if code != OK {
        return;
      }
      if !IsSuccess(httpStatus) {
        return E_API, t;
      }
      var s: Text := resp;
      if |s| >= 2 && s[0] == QUOTE && s[|s| - 1] == QUOTE {
        s := s[1..|s| - 1];
      }
      var ok;
      ok, t := CivilTime.ParseIso8601(s);
      code := if ok then OK else E_FORMAT;
    }

    /** use_local_clock: the local clock, but never below the floor. */
    method UseLocalClock()
      modifies this`evalNow, world`calls
      ensures world.calls == old(world.calls) + 1 && evalNow == Max(world.clockAt(old(world.calls)), timeFloor)
    {
      var t := world.Clock();
      evalNow := if t < timeFloor then timeFloor else t;
    }

    /** The trusted time that a call starting at port call n learns: from the time service, else from the server. */
    ghost function TrustedTime(n: nat): Options.Option<int> {
      if !cfg.hasTimesync then Options.None
      else if world.timesyncAt(n).Time? then Options.Some(world.timesyncAt(n).t as int)
      else if cfg.hasHttp then ServerSecond(world, n + 1)
      else Options.None
    }

    /** The port call at which the local clock is read when no trusted time is learned. */
    ghost function ClockCall(n: nat): nat {
      if cfg.hasTimesync then Next(n + 1) else n
    }

    /** The port call after the time is resolved. */
    ghost function Resolved(n: nat): nat {
      if cfg.hasTimesync && world.timesyncAt(n).Time? then n + 1
      else if TrustedTime(n).Some? then Next(n + 1)
      else ClockCall(n) + 1
    }

    /** resolve_now: time service, then the server, then the local clock. */
    method ResolveNow()
      requires Valid()
      modifies this`evalNow, this`timeFloor, this`resp, this`lastHttpStatus, this`lastNetFailure, this`events
      modifies world`calls, world`sent, world`log, world`slept
      ensures Valid() && world.calls == Resolved(old(world.calls)) && old(world.log) <= world.log
      ensures var now := TrustedTime(old(world.calls));
              if now.Some? then evalNow == now.value && events == old(events) + [Trusted(now.value)]
              else evalNow == Max(world.clockAt(ClockCall(old(world.calls))), old(timeFloor)) && events == old(events)
      ensures cfg.hasTimesync && world.timesyncAt(old(world.calls)).Time? ==>
        var t := world.timesyncAt(old(world.calls)).t; evalNow == t && events == old(events) + [Trusted(t)]
      ensures cfg.hasTimesync && !world.timesyncAt(old(world.calls)).Time? && cfg.hasHttp && ServerSecond(world, old(world.calls) + 1).Some? ==>
        var t := ServerSecond(world, old(world.calls) + 1).value; evalNow == t && events == old(events) + [Trusted(t)]
    {
      hide Floor, Honest, LastAdopted, CheckMachine, ServerSecond, ReplyTo, After;
      if cfg.hasTimesync {
        var a := world.Timesync();
        if a.Time? {
          Trust(a.t);
          return;
        }
        if cfg.hasHttp {
          var code, t := FetchServerTime();
          if code == OK {
            Trust(t);
            return;
          }
        }
      }
      UseLocalClock();
    }

    method Trust(t: int)
      requires Valid()
      modifies this`evalNow, this`timeFloor, this`events
      ensures Valid() && evalNow == t && events == old(events) + [Trusted(t)]
    {
      hide Floor, Honest, LastAdopted, CheckMachine;
      if t > timeFloor {
        timeFloor := t;
      }
      evalNow := t;
      FloorSnoc(events, Trusted(t));
      LastSnoc(events, Trusted(t));
      HonestSnoc(cfg.policy, events, Trusted(t));
      events := events + [Trusted(t)];
    }

    // ---------- adoption ----------

    /** adopt_verified: raise the floor to the server's stamps, evaluate no lower than it. */
    method AdoptVerified(lic: License, ghost token: Text)
      requires Valid() && CheckMachine(cfg.policy, token) == Accepted(lic)
      modifies this`license, this`status, this`hasLicense, this`evalNow, this`timeFloor, this`events
      ensures Valid() && hasLicense && license == lic
      ensures events == old(events) + [Adopted(token, lic, evalNow, status)]
      ensures evalNow == Max(old(evalNow), timeFloor) == EvaluatedAt(lic, old(evalNow), old(timeFloor)) && status == StatusAt(lic, evalNow)
    {
      hide Floor, Honest, LastAdopted, CheckMachine;
      if lic.created != TIME_NONE && lic.created > timeFloor {
        timeFloor := lic.created;
      }
      if lic.updated != TIME_NONE && lic.updated > timeFloor {
        timeFloor := lic.updated;
      }
      if evalNow < timeFloor {
        evalNow := timeFloor;
      }
      license := lic;
      status := StatusAt(lic, evalNow);
      hasLicense := true;
      ghost var e := Adopted(token, lic, evalNow, status);
      FloorSnoc(events, e);
      LastSnoc(events, e);
      assert (events + [e])[..|events| + 1] == events + [e];
      assert HonestAt(cfg.policy, events + [e], |events|);
      HonestSnoc(cfg.policy, events, e);
      events := events + [e];
    }

    /** adopt_license: only what the policy accepts. */
    method AdoptLicense(token: Text) returns (code: int)
      requires Valid()
      modifies this`license, this`status, this`hasLicense, this`evalNow, this`timeFloor, this`events
      ensures Valid()
      ensures match CheckMachine(cfg.policy, token)
              case Rejected(c) =>
                && code == c && events == old(events) && evalNow == old(evalNow) && timeFloor == old(timeFloor)
                && license == old(license) && status == old(status) && hasLicense == old(hasLicense)
              case Accepted(lic) =>
                && code == OK && events == old(events) + [Adopted(token, lic, evalNow, status)] && license == lic && hasLicense
                && evalNow == Max(old(evalNow), timeFloor) == EvaluatedAt(lic, old(evalNow), old(timeFloor)) && status == StatusAt(lic, evalNow)
    {
      hide Floor, Honest, LastAdopted, CheckMachine;
      var r := CheckToken(cfg.policy, token);
      if r.Rejected? {
        return r.code;
      }
      AdoptVerified(r.lic, token);
      code := OK;
    }
  
    // ---------- server flow ----------

    /** The "id" or "Id" string of the computer record, if it fits 64 bytes. */
    method ReadComputerId() returns (ok: bool)
      ensures ok <==> HasId(resp)
    {
      hide Tokenize, JsonNavigate.FindMember, JsonNavigate.Raw, JsonGrammar.Chars, JsonString.Unescape, JsonStructure.WellFormed;
      var body: Text := resp;
      var toks := new Tok[64](_ => Tok(Undefined, -1, -1, 0, -1));
      var ntok := JsonTokenizer.Parse(body, toks, 64);
      if ntok <= 0 {
        return false;
      }
      JsonStructure.AcceptedWellFormed(body, 64);
      var doc := JsonNavigate.Doc(body, toks[..ntok]);
      JsonString.QuotesClose(doc);
      var t := JsonNavigate.Member(doc, 0, ID);
      if t < 0 {
        t := JsonNavigate.Member(doc, 0, ID_CAPITAL);
      }
      if t < 0 {
        return false;
      }
      var pcId := new byte[64](_ => 0);
      var n := JsonString.Decode(doc, t, pcId);
      ok := n >= 0;
    }

    /** The text fits a buffer once escaped. */
    method Escapable(s: Text, cap: nat) returns (ok: bool)
      ensures ok <==> Fits(s, cap)
    {
      hide JsonString.Escape;
      var buf := new byte[cap](_ => 0);
      var n := JsonString.JsonEscape(s, buf);
      ok := n >= 0;
    }

    /** A request that only needs an accepting answer: success, or where allowed a conflict because the row exists. */
    method Ask(request: Request, conflictOk: bool) returns (code: int)
      modifies this`resp, this`lastHttpStatus, this`lastNetFailure, world`calls, world`sent, world`log, world`slept
      ensures world.calls == Next(old(world.calls)) && code == RequestCode(old(world.calls), conflictOk)
      ensures code == OK ==> resp == ReplyTo(world, old(world.calls)).body
      ensures code == OK ==> world.log == old(world.log) + Tried(world, request, old(world.calls))
      ensures old(world.log) <= world.log
      ensures code == E_HTTP && cfg.hasHttp ==> lastNetFailure != NoFailure
    {
      hide ReplyTo, After, Tried;
      var httpStatus;
      code, httpStatus := SendReq(request);
      if code == OK && !IsSuccess(httpStatus) && !(conflictOk && httpStatus == 409) {
        code := E_API;
      }
    }

    /** ensure_computer: register this machine, then fetch its id. */
    method EnsureComputer() returns (code: int)
      modifies this`resp, this`lastHttpStatus, this`lastNetFailure, world`calls, world`sent, world`log, world`slept
      ensures world.calls >= old(world.calls) && old(world.log) <= world.log
      ensures code == ComputerCode(old(world.calls))
      ensures code == OK ==> var n1 := After(world, old(world.calls));
        && world.calls == After(world, n1)
        && world.log == old(world.log) + Tried(world, PostComputer, old(world.calls)) + Tried(world, GetComputer, n1)
      ensures code == E_HTTP && cfg.hasHttp ==> lastNetFailure != NoFailure
    {
      hide ReplyTo, After, Tried, Fits, HasId;
      var ok := Escapable(cfg.policy.machineId, 128);
      if !ok {
        return E_ARG;
      }
      ok := Escapable(cfg.machineName, 256);
      if !ok {
        return E_ARG;
      }
      if cfg.policy.machineIdLegacy != [] {
        ok := Escapable(cfg.policy.machineIdLegacy, 128);
        if !ok {
          return E_ARG;
        }
      }
      code := Ask(PostComputer, true);
      if code != OK {
        return;
      }
      code := Ask(GetComputer, false);
      if code != OK {
        return;
      }
      ok := ReadComputerId();
      code := if ok then OK else E_FORMAT;
    }

    /** How a fetched text ends up: rejected, or adopted at a time not below the resolved one, and then written. */
    twostate predicate Taken(token: Text, at: nat, code: int)
      reads this, world
    {
      match CheckMachine(cfg.policy, token)
      case Rejected(c) => code == c && events == old(events) && world.stored == old(world.stored)
      case Accepted(lic) =>
        && hasLicense && license == lic && resp == token && evalNow == Max(old(evalNow), timeFloor)
        && events == old(events) + [Adopted(token, lic, evalNow, status)]
        && code == (if !cfg.hasWrite || world.writeAt(at) == Written then OK else E_STORAGE)
        && world.stored == if !cfg.hasWrite || world.writeAt(at) == FailedBefore then old(world.stored) else token
    }

    /** Nothing learned, nothing stored. */
    twostate predicate Untouched()
      reads this, world
    {
      && events == old(events) && world.stored == old(world.stored) && timeFloor == old(timeFloor) && evalNow == old(evalNow)
      && hasLicense == old(hasLicense) && license == old(license) && status == old(status)
    }

    /** What a request changes is not part of the invariant. */
    twostate lemma StillValid()
      requires old(Valid()) && Untouched()
      ensures Valid()
    {
      hide Floor, Honest, LastAdopted, CheckMachine;
    }

    lemma FloorIs()
      requires Valid()
      ensures timeFloor == Floor(events)
    {
      hide Floor, Honest, LastAdopted, CheckMachine;
    }

    twostate lemma KeptValid()
      requires old(Valid()) && unchanged(world)
      requires events == old(events) && timeFloor == old(timeFloor) && hasLicense == old(hasLicense) && license == old(license) && status == old(status)
      ensures Valid()
    {
      hide Floor, Honest, LastAdopted, CheckMachine;
    }

    /** The evaluation time moved, if at all, up to the floor. */
    twostate predicate Later()
      reads this
    {
      old(evalNow) <= evalNow <= Max(old(evalNow), timeFloor)
    }

    /** Adopt what the server sent, then cache it as it came. */
    method TakeResponse() returns (code: int)
      requires Valid()
      modifies this, world`calls, world`stored
      ensures Valid() && world.calls == old(world.calls) + if cfg.hasWrite && CheckMachine(cfg.policy, old(resp)).Accepted? then 1 else 0
      ensures Taken(old(resp), old(world.calls), code)
      ensures CheckMachine(cfg.policy, old(resp)).Rejected? ==> Untouched()
      ensures resp == old(resp) && lastHttpStatus == old(lastHttpStatus) && lastNetFailure == old(lastNetFailure)
    {
      hide Floor, Honest, LastAdopted, CheckMachine;
      code := AdoptLicense(resp);
      if code != OK {
        return;
      }
      if cfg.hasWrite {
        var ok := world.Write(resp);
        if !ok {
          return E_STORAGE;
        }
      }
    }

    /** refresh_internal: the four requests, then the adoption. */
    method RefreshInternal() returns (code: int)
      requires Valid()
      modifies this, world`calls, world`sent, world`log, world`slept, world`stored
      ensures Valid() && world.calls >= old(world.calls) && old(world.log) <= world.log && old(events) <= events
      ensures match Fetch(old(world.calls))
              case NotFetched(c) => code == c && Untouched()
              case Fetched(token, next) =>
                && Taken(token, next, code) && world.log == old(world.log) + FetchLog(old(world.calls))
                && world.calls == RefreshEnd(old(world.calls)) && (CheckMachine(cfg.policy, token).Rejected? ==> Untouched())
      ensures code == RefreshCode(old(world.calls))
      ensures code == OK || code == E_STORAGE ==> hasLicense && events == old(events) + [Adopted(resp, license, evalNow, status)]
      ensures code == OK && cfg.hasWrite ==> world.stored == resp
      ensures code != OK && code != E_STORAGE ==> Untouched()
      ensures Later() && AllAdoptedAt(events, |old(events)|, old(evalNow))
      ensures code == OK ==> FreshLicense()
      ensures code != E_NO_LICENSE && (code == E_HTTP && cfg.hasHttp ==> lastNetFailure != NoFailure)
      ensures !cfg.hasHttp ==> code == E_HTTP || code == E_ARG
    {
      hide Floor, Honest, LastAdopted, CheckMachine, ReplyTo, After, Tried, HasId, IdentityFits, ComputerCode, RequestCode, AllAdoptedAt, FreshLicense;
      NoneAdopted(events, evalNow);
      code := EnsureComputer();
      if code != OK {
        return;
      }
      code := Ask(PostLicense, true);
      if code != OK {
        return;
      }
      code := GetSignedLicense();
    }

    /** get_signed_license: the last request of a refresh and what becomes of its answer. */
    method GetSignedLicense() returns (code: int)
      requires Valid()
      modifies this, world`calls, world`sent, world`log, world`slept, world`stored
      ensures Valid() && world.calls >= old(world.calls) && old(world.log) <= world.log
      ensures RequestCode(old(world.calls), false) != OK ==> code == RequestCode(old(world.calls), false) && Untouched()
      ensures RequestCode(old(world.calls), false) == OK ==>
        var token := ReplyTo(world, old(world.calls)).body;
        && world.log == old(world.log) + Tried(world, GetLicense, old(world.calls))
        && (if token == [] || token[0] == 0x3c then code == E_FORMAT && Untouched() else Taken(token, After(world, old(world.calls)), code))
        && (token != [] && token[0] != 0x3c ==>
              world.calls == After(world, old(world.calls)) + if cfg.hasWrite && CheckMachine(cfg.policy, token).Accepted? then 1 else 0)
        && (CheckMachine(cfg.policy, token).Rejected? ==> Untouched())
      ensures Later() && AllAdoptedAt(events, |old(events)|, old(evalNow))
      ensures code == OK ==> FreshLicense()
      ensures code == E_HTTP && cfg.hasHttp ==> lastNetFailure != NoFailure
    {
      hide Floor, Honest, LastAdopted, CheckMachine, ReplyTo, After, Tried;
      ghost var n := world.calls;
      code := Ask(GetLicense, false);
      if code != OK {
        return;
      }
      TriedAgreed(GetLicense, n);
      if |resp| == 0 || resp[0] == 0x3c {
        return E_FORMAT;
      }
      ghost var before, now := events, evalNow;
      code := TakeResponse();
      if events != before {
        AdoptedSnoc(before, |before|, now, events[|before|], now);
      }
    }

    // ---------- what a public call guarantees ----------

    /** The call that starts at port call n recorded the trusted time it was told, and nothing else so far. */
    ghost predicate Heard(n: nat, before: seq<Event>, resolved: seq<Event>) {
      resolved == before + if TrustedTime(n).Some? then [Trusted(TrustedTime(n).value)] else []
    }

    /** The time that call evaluates at: the trusted one, or the local clock no lower than the floor it started with. */
    ghost function Now(n: nat, floor: int): int {
      if TrustedTime(n).Some? then TrustedTime(n).value else Max(world.clockAt(ClockCall(n)), floor)
    }

    /** How a refresh from port call n ends, `before` being the history it started with. */
    ghost predicate Refreshed(before: seq<Event>, n: nat, code: int)
      reads this
    {
      match Fetch(n)
      case NotFetched(c) => code == c && events == before
      case Fetched(token, next) =>
        match CheckMachine(cfg.policy, token)
        case Rejected(c) => code == c && events == before
        case Accepted(lic) =>
          && hasLicense && license == lic && events == before + [Adopted(token, lic, evalNow, status)]
          && code == if !cfg.hasWrite || world.writeAt(next) == Written then OK else E_STORAGE
    }

    /** hlm_client_refresh: a fresh signed licence, ignoring the cache. */
    method Refresh() returns (code: int, ghost resolved: seq<Event>)
      requires Valid()
      modifies this, world`calls, world`sent, world`log, world`slept, world`stored
      ensures Valid() && old(events) <= resolved <= events && old(world.log) <= world.log
      ensures Heard(old(world.calls), old(events), resolved)
      ensures AllAdoptedAt(events, |resolved|, Now(old(world.calls), old(timeFloor)))
      ensures Refreshed(resolved, Resolved(old(world.calls)), code)
      ensures code == OK ==> hasLicense && (cfg.hasWrite ==> world.stored == resp)
      ensures code == E_HTTP && cfg.hasHttp ==> lastNetFailure != NoFailure
    {
      hide Floor, Honest, LastAdopted, CheckMachine, Fetch, TrustedTime, ClockCall, Resolved;
      lastNetFailure := NoFailure;
      ResolveNow();
      resolved := events;
      code := RefreshInternal();
    }

    /** The cached text, when storage gives one. */
    ghost function CachedText(n: nat, stored: Text): Text {
      if cfg.hasRead then ReadBack(world.readAt(n), stored) else []
    }

    method ReadCache() returns (cached: Buffered)
      modifies world`calls
      ensures cached == CachedText(old(world.calls), world.stored)
      ensures world.calls == old(world.calls) + if cfg.hasRead then 1 else 0
    {
      cached := [];
      if cfg.hasRead {
        cached := world.Read();
      }
    }

    /** What an accepted cache entry does: it is adopted first, and settles the check unless it has expired. */
    ghost predicate CacheAdopted(before: seq<Event>, cached: Text, code: int)
      reads this
    {
      CheckMachine(cfg.policy, cached).Accepted? && cached != [] ==>
        && |before| < |events| && events[|before|].Adopted?
        && events[|before|].token == cached && events[|before|].lic == CheckMachine(cfg.policy, cached).lic
        && (events[|before|].status != Expired ==> code == OK && |events| == |before| + 1)
    }

    /** The history after the cache entry, if it is accepted, was adopted. */
    ghost function AfterCache(before: seq<Event>, cached: Text): seq<Event>
      reads this
    {
      if CheckMachine(cfg.policy, cached).Accepted? && cached != [] && |before| < |events| then before + [events[|before|]] else before
    }

    /** The cache settles the check: it holds an accepted licence that has not expired. */
    ghost predicate Settled(before: seq<Event>, cached: Text)
      reads this
    {
      CheckMachine(cfg.policy, cached).Accepted? && cached != [] && |before| < |events| && events[|before|].Adopted? && events[|before|].status != Expired
    }

    /** Otherwise a refresh decides; a network failure counts as success while a licence is held. */
    ghost predicate DecidedByServer(before: seq<Event>, cached: Text, n: nat, code: int, r: int)
      reads this
    {
      && Refreshed(AfterCache(before, cached), n, r)
      && code == if r == E_HTTP && hasLicense then OK else if r == E_HTTP && !cfg.hasHttp then E_NO_LICENSE else r
    }

    /** The second half of a check: a refresh, whose network failure is forgiven while a licence is held. */
    method AskServer() returns (code: int, ghost r: int)
      requires Valid()
      modifies this, world`calls, world`sent, world`log, world`slept, world`stored
      ensures Valid() && old(events) <= events && old(world.log) <= world.log && world.calls >= old(world.calls)
      ensures Refreshed(old(events), old(world.calls), r) && r == RefreshCode(old(world.calls)) && (r == E_HTTP ==> hasLicense == old(hasLicense))
      ensures code == if r == E_HTTP && hasLicense then OK else if r == E_HTTP && !cfg.hasHttp then E_NO_LICENSE else r
      ensures Later() && AllAdoptedAt(events, |old(events)|, old(evalNow))
      ensures code == OK ==> hasLicense
      ensures code == E_NO_LICENSE ==> !cfg.hasHttp && !hasLicense
      ensures code == E_HTTP ==> cfg.hasHttp && !hasLicense && lastNetFailure != NoFailure
    {
      hide Floor, Honest, LastAdopted, CheckMachine, Fetch, FetchLog, AllAdoptedAt, FreshLicense;
      code := RefreshInternal();
      r := code;
      if code == E_HTTP && hasLicense {
        return OK, r;
      }
      if code == E_HTTP && !cfg.hasHttp && !hasLicense {
        return E_NO_LICENSE, r;
      }
    }

    method CheckInternal() returns (code: int, ghost cached: Text, ghost r: int)
      requires Valid()
      modifies this, world`calls, world`sent, world`log, world`slept, world`stored
      ensures Valid() && old(events) <= events && old(world.log) <= world.log && world.calls >= old(world.calls)
      ensures cached == CachedText(old(world.calls), old(world.stored))
      ensures CacheAdopted(old(events), cached, code)
      ensures Settled(old(events), cached) ==> world.log == old(world.log) && world.stored == old(world.stored)
      ensures !Settled(old(events), cached) ==>
        DecidedByServer(old(events), cached, old(world.calls) + (if cfg.hasRead then 1 else 0), code, r)
      ensures code == CheckCode(old(world.calls), old(world.stored), old(evalNow), old(timeFloor), old(hasLicense))
      ensures Later() && AllAdoptedAt(events, |old(events)|, old(evalNow))
      ensures code == OK ==> hasLicense
      ensures code == E_NO_LICENSE ==> !cfg.hasHttp && !hasLicense
      ensures code == E_HTTP ==> cfg.hasHttp && !hasLicense && lastNetFailure != NoFailure
    {
      hide Floor, Honest, LastAdopted, CheckMachine, Fetch, FetchLog, AllAdoptedAt, FreshLicense, Refreshed;
      var bytes := ReadCache();
      cached, r := bytes, OK;
      ghost var before, now, from := events, evalNow, |events|;
      NoneAdopted(before, now);
      if |bytes| > 0 {
        code := AdoptLicense(bytes);
        if code == OK {
          AdoptedSnoc(before, from, now, events[from], now);
          if status != Expired {
            return;
          }
        }
      }
      ghost var middle, at := events, evalNow;
      code, r := AskServer();
      AdoptedMore(middle, events, from, now, at);
    }

    /** hlm_client_check: the cached licence if it still holds, otherwise the server's. */
    method Check() returns (code: int, ghost cached: Text, ghost resolved: seq<Event>, ghost r: int)
      requires Valid()
      modifies this, world`calls, world`sent, world`log, world`slept, world`stored
      ensures Valid() && old(events) <= resolved <= events && old(world.log) <= world.log
      ensures Heard(old(world.calls), old(events), resolved)
      ensures AllAdoptedAt(events, |resolved|, Now(old(world.calls), old(timeFloor)))
      ensures cached == CachedText(Resolved(old(world.calls)), old(world.stored))
      ensures CacheAdopted(resolved, cached, code)
      ensures !Settled(resolved, cached) ==>
        DecidedByServer(resolved, cached, Resolved(old(world.calls)) + (if cfg.hasRead then 1 else 0), code, r)
      ensures code == OK ==> hasLicense
      ensures code == E_NO_LICENSE ==> !cfg.hasHttp && !hasLicense
      ensures code == E_HTTP ==> cfg.hasHttp && !hasLicense && lastNetFailure != NoFailure
    {
      hide Floor, Honest, LastAdopted, CheckMachine, Fetch, TrustedTime, ClockCall, Resolved;
      lastNetFailure := NoFailure;
      ResolveNow();
      resolved := events;
      code, cached, r := CheckInternal();
    }

    // ---------- receipts ----------

    /** Request number `from` or a later one patched the licence row with the receipt, and the server agreed. */
    ghost predicate PatchedSince(from: nat, receipt: Text)
      reads world
    {
      exists i :: from <= i < |world.log| && world.log[i].request == PatchReceipt(receipt) && Agreed(world.log[i].at)
    }

    ghost predicate Agreed(at: nat) {
      world.sendAt(at).ok && IsSuccess(world.sendAt(at).status)
    }

    /** An agreed request is the last entry of what went out for it. */
    lemma TriedAgreed(request: Request, n: nat)
      requires cfg.hasHttp && RequestCode(n, false) == OK
      ensures var t := Tried(world, request, n);
              |t| > 0 && t[|t| - 1].request == request && Agreed(t[|t| - 1].at) && world.sendAt(t[|t| - 1].at).body == ReplyTo(world, n).body
    {}

    /** The patch itself: the code of the answer, and whether it agrees. */
    method SendPatch(receipt: Text) returns (code: int, httpStatus: int)
      requires Valid()
      modifies this`resp, this`lastHttpStatus, this`lastNetFailure, world`calls, world`sent, world`log, world`slept
      ensures Valid() && old(world.log) <= world.log && world.calls >= old(world.calls) && (code == E_HTTP && cfg.hasHttp ==> lastNetFailure != NoFailure)
      ensures world.calls == Next(old(world.calls))
      ensures code != OK ==> code == RequestCode(old(world.calls), false)
      ensures code == OK ==> RequestCode(old(world.calls), false) == (if IsSuccess(httpStatus) then OK else E_API)
      ensures code == OK <==> cfg.hasHttp && ReplyTo(world, old(world.calls)).Answered?
      ensures code == OK ==> httpStatus == lastHttpStatus == ReplyTo(world, old(world.calls)).status
      ensures code == OK ==> AnsweredSince(old(world.calls), httpStatus)
      ensures code == OK && IsSuccess(httpStatus) ==> PatchedSince(|old(world.log)|, receipt)
    {
      hide Floor, Honest, LastAdopted, CheckMachine, ReplyTo, After, Tried, Valid;
      ghost var n := world.calls;
      code, httpStatus := SendReq(PatchReceipt(receipt));
      StillValid();
      if code == OK && IsSuccess(httpStatus) {
        TriedAgreed(PatchReceipt(receipt), n);
        assert world.log[|world.log| - 1].request == PatchReceipt(receipt);
      }
    }

    /** patch_license: attach a receipt code, or free the seat; a vanished row is created again first. */
    method PatchLicense(receipt: Text) returns (code: int)
      requires Valid()
      modifies this, world`calls, world`sent, world`log, world`slept, world`stored
      ensures Valid() && old(events) <= events && old(world.log) <= world.log
      ensures !old(hasLicense) ==> code == E_NO_LICENSE && Untouched() && world.log == old(world.log)
      ensures old(hasLicense) && !Fits(receipt, 256) ==> code == E_ARG && Untouched() && world.log == old(world.log)
      ensures old(hasLicense) && Fits(receipt, 256) ==>
        code == PatchCode(old(world.calls)) && (code == OK ==> world.calls == PatchEnd(old(world.calls)))
      ensures !RowGone(old(world.calls)) ==> Untouched()
      ensures code == OK ==> PatchedSince(|old(world.log)|, receipt)
      ensures code == OK ==> IsSuccess(lastHttpStatus)
      ensures !AnsweredSince(old(world.calls), 404) ==> Untouched()
      ensures Later() && AllAdoptedAt(events, |old(events)|, old(evalNow))
    {
      hide Floor, Honest, LastAdopted, CheckMachine, ReplyTo, After, Tried, Fits, Fetch, FetchLog, AllAdoptedAt, FreshLicense, Taken, Valid;
      hide RefreshEnd, RequestCode;
      NoneAdopted(events, evalNow);
      if !hasLicense {
        return E_NO_LICENSE;
      }
      var ok := Escapable(receipt, 256);
      if !ok {
        return E_ARG;
      }
      var httpStatus;
      code, httpStatus := SendPatch(receipt);
      if code != OK {
        return;
      }
      if httpStatus == 404 {
        code := RefreshInternal();
        if code != OK {
          return;
        }
        code, httpStatus := SendPatch(receipt);
        if code != OK {
          return;
        }
      }
      if httpStatus != 204 && !IsSuccess(httpStatus) {
        code := E_API;
      }
    }

    ghost predicate LicenseAnswer(last: Sent)
      reads this
    {
      last.request == GetLicense && Agreed(last.at) && world.sendAt(last.at).body == resp
    }

    /** The last request was for the licence, and the current licence is the server's answer to it. */
    ghost predicate FreshLicense()
      reads this, world
    {
      && |world.log| > 0 && |events| > 0 && LicenseAnswer(world.log[|world.log| - 1])
      && events[|events| - 1] == Adopted(resp, license, evalNow, status)
    }

    /** Activation and deactivation: patch, then refresh, so success leaves the licence the server just signed. */
    method SetReceiptCode(receipt: Text) returns (code: int, ghost resolved: seq<Event>, ghost from: nat)
      requires Valid()
      modifies this, world`calls, world`sent, world`log, world`slept, world`stored
      ensures Valid() && old(events) <= resolved <= events && old(world.log) <= world.log
      ensures Heard(old(world.calls), old(events), resolved)
      ensures AllAdoptedAt(events, |resolved|, Now(old(world.calls), old(timeFloor)))
      ensures code == OK ==> hasLicense && FreshLicense() && PatchedSince(|old(world.log)|, receipt) && |resolved| < |events|
      ensures code == OK && cfg.hasWrite ==> world.stored == resp
      ensures from >= Resolved(old(world.calls)) && (old(hasLicense) ==> from == Resolved(old(world.calls)))
      ensures var n := old(world.calls);
              var c := if old(hasLicense) then OK else CheckCode(Resolved(n), old(world.stored), Now(n, old(timeFloor)), Floor(resolved), false);
              code == if c != OK then c else ReceiptCode(from, receipt)
    {
      hide Floor, Honest, LastAdopted, CheckMachine, ReplyTo, After, Tried, Fits, Fetch, FetchLog, TrustedTime, ClockCall, Resolved;
      hide RefreshCode, RefreshEnd, PatchCode, PatchEnd, RowGone, CheckCode;
      hide AllAdoptedAt, FreshLicense, RequestCode, CacheAdopted, Settled, DecidedByServer, Taken, Valid, Untouched;
      lastNetFailure := NoFailure;
      assert Valid() by { KeptValid(); }
      ResolveNow();
      resolved := events;
      ghost var now := evalNow;
      from := world.calls;
      FloorIs();
      NoneAdopted(resolved, now);
      if !hasLicense {
        ghost var cached, r;
        code, cached, r := CheckInternal();
        if code != OK {
          return;
        }
      }
      from := world.calls;
      FloorIs();
      ghost var checked, at := events, evalNow;
      code := PatchLicense(receipt);
      AdoptedMore(checked, events, |resolved|, now, at);
      if code != OK {
        return;
      }
      FloorIs();
      ghost var patched := events;
      at := evalNow;
      code := RefreshInternal();
      AdoptedMore(patched, events, |resolved|, now, at);
    }

    /** hlm_client_activate */
    method Activate(receipt: Text) returns (code: int, ghost resolved: seq<Event>, ghost from: nat)
      requires Valid()
      modifies this, world`calls, world`sent, world`log, world`slept, world`stored
      ensures Valid() && old(events) <= resolved <= events && old(world.log) <= world.log
      ensures receipt == [] ==> code == E_ARG && Untouched() && world.log == old(world.log)
      ensures receipt != [] ==> Heard(old(world.calls), old(events), resolved)
      ensures AllAdoptedAt(events, |resolved|, Now(old(world.calls), old(timeFloor)))
      ensures code == OK ==> hasLicense && FreshLicense() && PatchedSince(|old(world.log)|, receipt) && |resolved| < |events|
      ensures receipt != [] ==> from >= Resolved(old(world.calls)) && (old(hasLicense) ==> from == Resolved(old(world.calls)))
      ensures receipt != [] ==>
        var n := old(world.calls);
        var c := if old(hasLicense) then OK else CheckCode(Resolved(n), old(world.stored), Now(n, old(timeFloor)), Floor(resolved), false);
        code == if c != OK then c else ReceiptCode(from, receipt)
    {
      resolved, from := events, 0;
      if receipt == [] {
        return E_ARG, resolved, from;
      }
      code, resolved, from := SetReceiptCode(receipt);
    }

    /** hlm_client_deactivate */
    method Deactivate() returns (code: int, ghost resolved: seq<Event>, ghost from: nat)
      requires Valid()
      modifies this, world`calls, world`sent, world`log, world`slept, world`stored
      ensures Valid() && old(events) <= resolved <= events && old(world.log) <= world.log
      ensures Heard(old(world.calls), old(events), resolved)
      ensures AllAdoptedAt(events, |resolved|, Now(old(world.calls), old(timeFloor)))
      ensures code == OK ==> hasLicense && FreshLicense() && PatchedSince(|old(world.log)|, []) && |resolved| < |events|
      ensures from >= Resolved(old(world.calls)) && (old(hasLicense) ==> from == Resolved(old(world.calls)))
      ensures var n := old(world.calls);
              var c := if old(hasLicense) then OK else CheckCode(Resolved(n), old(world.stored), Now(n, old(timeFloor)), Floor(resolved), false);
              code == if c != OK then c else ReceiptCode(from, [])
    {
      code, resolved, from := SetReceiptCode([]);
    }

    // ---------- licence files ----------

    /** hlm_license_import up to the write: how a document is classified. */
    ghost function Classify(document: Text): int {
      var token := Trimmed(document);
      if !Compact(token) then NOT_A_LICENSE
      else if |cfg.policy.keys| == 0 then NO_PUBLIC_KEY
      else
        match CheckMachine(cfg.policy, token)
        case Accepted(_) => INSTALLED
        case Rejected(code) =>
          if code == E_SIGNATURE || code == E_UNSUPPORTED_ALG then SIGNATURE_INVALID
          else if code == E_PRODUCT_MISMATCH then WRONG_PRODUCT
          else if code == E_COMPUTER_MISMATCH then WRONG_COMPUTER
          else NOT_A_LICENSE
    }

    /** Each outcome of an import before the write, by what the document holds. */
    lemma ClassifyExact(document: Text)
      ensures var r, token := Classify(document), Trimmed(document);
              var shaped, signed := Compact(token), exists lic :: SignedFor(cfg.policy, token, lic);
              && (r == NO_PUBLIC_KEY <==> shaped && cfg.policy.keys == [])
              && (r == INSTALLED <==> shaped && cfg.policy.keys != [] && exists lic :: Bound(token, lic))
              && (r == WRONG_PRODUCT <==> shaped && cfg.policy.keys != [] && exists lic :: OtherProduct(token, lic))
              && (r == WRONG_COMPUTER <==> shaped && cfg.policy.keys != [] && exists lic :: OtherMachine(token, lic))
              && (r == SIGNATURE_INVALID ==> shaped && cfg.policy.keys != [] && !signed)
              && (!shaped ==> r == NOT_A_LICENSE)
    {
      hide Compact, Trimmed, CheckMachine, Names, NamesMachine, SignedFor;
      var token := Trimmed(document);
      MismatchExact(cfg.policy, token);
      forall lic: License
        ensures CheckMachine(cfg.policy, token) == Accepted(lic) <==> Bound(token, lic)
      {
        BoundSigned(cfg.policy, token, lic);
      }
      SignedDecides(cfg.policy, token);
      if lic :| SignedFor(cfg.policy, token, lic) && !Names(lic.productId, cfg.policy.productId) {
        assert OtherProduct(token, lic);
      }
      if lic :| SignedFor(cfg.policy, token, lic) && Names(lic.productId, cfg.policy.productId) && !NamesMachine(cfg.policy, lic) {
        assert OtherMachine(token, lic);
      }
    }

    ghost predicate OtherProduct(token: Text, lic: License) {
      SignedFor(cfg.policy, token, lic) && !Names(lic.productId, cfg.policy.productId)
    }

    ghost predicate OtherMachine(token: Text, lic: License) {
      SignedFor(cfg.policy, token, lic) && Names(lic.productId, cfg.policy.productId) && !NamesMachine(cfg.policy, lic)
    }

    /** A signed licence for this product and this machine. */
    ghost predicate Bound(token: Text, lic: License) {
      SignedFor(cfg.policy, token, lic) && Names(lic.productId, cfg.policy.productId) && NamesMachine(cfg.policy, lic)
    }

    /** hlm_license_import: nothing is written before the token is verified. */
    method ImportDocument(document: Text) returns (r: int, lic: License)
      modifies world`calls, world`stored
      ensures !cfg.hasWrite ==> r == E_ARG
      ensures cfg.hasWrite ==> r == if Classify(document) == INSTALLED && world.writeAt(old(world.calls)) != Written then WRITE_FAILED else Classify(document)
      ensures r == INSTALLED ==> CheckMachine(cfg.policy, Trimmed(document)) == Accepted(lic) && world.stored == Trimmed(document)
      ensures r == WRITE_FAILED ==> world.stored == if world.writeAt(old(world.calls)) == FailedBefore then old(world.stored) else Trimmed(document)
      ensures world.calls == old(world.calls) + if r == INSTALLED || r == WRITE_FAILED then 1 else 0
      ensures r != INSTALLED && r != WRITE_FAILED ==> world.stored == old(world.stored)
    {
      hide CheckMachine, Compact, Trimmed;
      lic := NO_LICENSE;
      if !cfg.hasWrite {
        return E_ARG, lic;
      }
      var token := TrimDocument(document);
      var compact := LooksLikeJws(token);
      if !compact {
        return NOT_A_LICENSE, lic;
      }
      if |cfg.policy.keys| == 0 {
        return NO_PUBLIC_KEY, lic;
      }
      var c := CheckToken(cfg.policy, token);
      if c.Rejected? {
        if c.code == E_SIGNATURE || c.code == E_UNSUPPORTED_ALG {
          return SIGNATURE_INVALID, lic;
        }
        if c.code == E_PRODUCT_MISMATCH {
          return WRONG_PRODUCT, lic;
        }
        if c.code == E_COMPUTER_MISMATCH {
          return WRONG_COMPUTER, lic;
        }
        return NOT_A_LICENSE, lic;
      }
      lic := c.lic;
      var ok := world.Write(token);
      r := if ok then INSTALLED else WRITE_FAILED;
    }

    /** hlm_client_import: only an installed licence is adopted; every other outcome leaves the client as it was. */
    method Import(document: Text) returns (r: int)
      requires Valid()
      modifies this`license, this`status, this`hasLicense, this`evalNow, this`timeFloor, this`events, world`calls, world`stored
      ensures Valid()
      ensures r == if !cfg.hasWrite then E_ARG
                   else if Classify(document) == INSTALLED && world.writeAt(old(world.calls)) != Written then WRITE_FAILED
                   else Classify(document)
      ensures r == INSTALLED ==>
        && world.stored == Trimmed(document) && CheckMachine(cfg.policy, world.stored) == Accepted(license)
        && events == old(events) + [Adopted(world.stored, license, evalNow, status)]
        && evalNow == Max(Max(world.clockAt(old(world.calls) + 1), old(timeFloor)), timeFloor)
      ensures r != INSTALLED ==>
        && license == old(license) && status == old(status) && hasLicense == old(hasLicense)
        && timeFloor == old(timeFloor) && evalNow == old(evalNow) && events == old(events)
      ensures r != INSTALLED && r != WRITE_FAILED ==> world.stored == old(world.stored)
    {
      hide Floor, Honest, LastAdopted, CheckMachine, Compact, Trimmed;
      ghost var token := Trimmed(document);
      var lic;
      r, lic := ImportDocument(document);
      if r != INSTALLED {
        assert r == WRITE_FAILED ==> Classify(document) == INSTALLED;
        return;
      }
      UseLocalClock();
      AdoptVerified(lic, token);
    }
  }

  // ---------- runs ----------

  datatype Call = DoCheck | DoRefresh | DoActivate(receipt: Text) | DoDeactivate | DoImport(document: Text)

  /** hlm_client_init refuses a policy without keys. */
  method Init(cfg: Config, world: World) returns (c: Client?)
    ensures c == null <==> |cfg.policy.keys| == 0
    ensures c != null ==> fresh(c) && c.Valid() && c.cfg == cfg && c.world == world && c.initial == world.stored && c.events == [] && !c.hasLicense
  {
    hide Floor, Honest, LastAdopted, CheckMachine;
    if |cfg.policy.keys| == 0 {
      return null;
    }
    c := new Client(cfg, world);
  }

  /** In every run of public calls, whatever the ports answer, the history stays honest: the floor is that of the
      history, only accepted licences are adopted or stored, and the history only grows. */
  method Run(c: Client, calls: seq<Call>)
    requires c.Valid()
    modifies c, c.world`calls, c.world`sent, c.world`log, c.world`slept, c.world`stored
    ensures c.Valid() && old(c.events) <= c.events
  {
    hide Floor, Honest, LastAdopted, CheckMachine;
    var i := 0;
    while i < |calls|
      invariant 0 <= i <= |calls| && c.Valid() && old(c.events) <= c.events
    {
      var code;
      match calls[i] {
        case DoCheck =>
          ghost var cached, resolved, r;
          code, cached, resolved, r := c.Check();
        case DoRefresh =>
          ghost var resolved;
          code, resolved := c.Refresh();
        case DoActivate(receipt) =>
          ghost var resolved, from;
          code, resolved, from := c.Activate(receipt);
        case DoDeactivate =>
          ghost var resolved, from;
          code, resolved, from := c.Deactivate();
        case DoImport(document) => code := c.Import(document);
      }
      i := i + 1;
    }
  }

  /** Within one check every licence that has expired by the time the call resolved is found Expired, and a trusted
      answer is that time. */
  method TrustedTimeDecides(c: Client) returns (code: int, ghost now: int, ghost resolved: seq<Event>)
    requires c.Valid()
    modifies c, c.world`calls, c.world`sent, c.world`log, c.world`slept, c.world`stored
    ensures c.Valid() && old(c.events) <= resolved <= c.events
    ensures c.cfg.hasTimesync && c.world.timesyncAt(old(c.world.calls)).Time? ==>
      now == c.world.timesyncAt(old(c.world.calls)).t && resolved == old(c.events) + [Trusted(now)]
    ensures c.cfg.hasTimesync && !c.world.timesyncAt(old(c.world.calls)).Time? && c.cfg.hasHttp && ServerSecond(c.world, old(c.world.calls) + 1).Some? ==>
      now == ServerSecond(c.world, old(c.world.calls) + 1).value && resolved == old(c.events) + [Trusted(now)]
    ensures !c.cfg.hasTimesync ==> now == Max(c.world.clockAt(old(c.world.calls)), old(c.timeFloor)) && resolved == old(c.events)
    ensures forall i :: |resolved| <= i < |c.events| ==> c.events[i].Adopted? && (ExpiresBy(c.events[i].lic, now) ==> c.events[i].status == Expired)
  {
    hide Floor, CheckMachine, LastAdopted;
    now := c.Now(c.world.calls, c.timeFloor);
    ghost var cached, r;
    code, cached, resolved, r := c.Check();
    forall i | |resolved| <= i < |c.events|
      ensures c.events[i].Adopted? && (ExpiresBy(c.events[i].lic, now) ==> c.events[i].status == Expired)
    {
      assert AdoptedAt(c.events, i, now);
      HonestEvent(c.cfg.policy, c.events, i);
    }
  }

  ghost predicate ExpiresBy(lic: License, now: int) {
    lic.expires != TIME_NONE && lic.expires <= now
  }

  /** A refresh from a server whose first answers are all good, whose third is read for the id and whose last is an
      accepted licence, succeeds with that licence after four requests. */
  method RefreshFromGoodServer(c: Client) returns (code: int, ghost resolved: seq<Event>)
    requires c.Valid() && !c.cfg.hasTimesync && c.GoodServer(c.world.calls + 1) && c.IdentityFits()
    requires HasId(c.world.sendAt(c.world.calls + 4).body) && CheckMachine(c.cfg.policy, c.world.sendAt(c.world.calls + 8).body).Accepted?
    requires c.world.sendAt(c.world.calls + 8).body != [] && c.world.sendAt(c.world.calls + 8).body[0] != 0x3c
    requires c.cfg.hasWrite ==> c.world.writeAt(c.world.calls + 9) == Written
    modifies c, c.world`calls, c.world`sent, c.world`log, c.world`slept, c.world`stored
    ensures c.Valid() && code == OK && c.hasLicense
    ensures CheckMachine(c.cfg.policy, c.world.sendAt(old(c.world.calls) + 8).body) == Accepted(c.license)
    ensures c.events == old(c.events) + [Adopted(c.world.sendAt(old(c.world.calls) + 8).body, c.license, c.evalNow, c.status)]
  {
    hide Floor, CheckMachine, LastAdopted, Honest, HasId, Client.GoodServer, Client.IdentityFits, Client.Fetch, AllAdoptedAt;
    c.GoodServerFetch(c.world.calls + 1);
    code, resolved := c.Refresh();
  }

  /** Activation with a licence held: the receipt is patched in by one request, and four more bring the new licence. */
  method ActivateOnGoodServer(c: Client, receipt: Text) returns (code: int, ghost resolved: seq<Event>, ghost from: nat)
    requires c.Valid() && c.hasLicense && !c.cfg.hasTimesync && receipt != [] && |JsonString.Escape(receipt)| < 256
    requires c.GoodAnswer(c.world.calls + 1) && c.GoodServer(c.world.calls + 3) && c.IdentityFits()
    requires HasId(c.world.sendAt(c.world.calls + 6).body) && CheckMachine(c.cfg.policy, c.world.sendAt(c.world.calls + 10).body).Accepted?
    requires c.world.sendAt(c.world.calls + 10).body != [] && c.world.sendAt(c.world.calls + 10).body[0] != 0x3c
    requires c.cfg.hasWrite ==> c.world.writeAt(c.world.calls + 11) == Written
    modifies c, c.world`calls, c.world`sent, c.world`log, c.world`slept, c.world`stored
    ensures c.Valid() && code == OK && c.hasLicense && c.FreshLicense() && c.PatchedSince(|old(c.world.log)|, receipt)
  {
    hide Floor, CheckMachine, LastAdopted, Honest, HasId, Client.IdentityFits, Client.Fetch, AllAdoptedAt, JsonString.Escape;
    ghost var n := c.world.calls;
    GoodPatch(c, n + 1, receipt);
    c.GoodServerFetch(n + 3);
    code, resolved, from := c.Activate(receipt);
  }

  /** A patch that the server agrees to at once. */
  lemma GoodPatch(c: Client, n: nat, receipt: Text)
    requires c.cfg.hasHttp && c.GoodAnswer(n) && |JsonString.Escape(receipt)| < 256
    ensures c.ReceiptCode(n, receipt) == c.RefreshCode(n + 2)
  {
    hide Client.Fetch, JsonString.Escape, ReplyTo, After, Tried;
    FirstAnswerCounts(c.world, PatchReceipt(receipt), n);
  }

  /** A client that holds a licence got it from a token its policy accepts. */
  lemma HeldIsVerified(c: Client)
    requires c.Valid() && c.hasLicense
    ensures exists token :: CheckMachine(c.cfg.policy, token) == Accepted(c.license)
  {
    hide CheckMachine, Floor, StatusAt;
    var last := LastAdopted(c.events);
    var i :| 0 <= i < |c.events| && c.events[i] == last;
    assert HonestAt(c.cfg.policy, c.events, i);
    assert CheckMachine(c.cfg.policy, last.token) == Accepted(c.license);
  }

  /** An installed licence file shorter than the read buffer is adopted again, as the same licence,
      by the next check that reads storage faithfully. */
  method ImportThenCheck(c: Client, document: Text) returns (r: int, code: int, ghost at: nat)
    requires c.Valid() && c.cfg.hasRead && c.world.FaithfulReads()
    modifies c, c.world`calls, c.world`sent, c.world`log, c.world`slept, c.world`stored
    ensures c.Valid()
    ensures r == INSTALLED && |Trimmed(document)| < CLIENT_BUF ==>
      && at < |c.events| && c.events[at].Adopted? && c.events[at].token == Trimmed(document)
      && CheckMachine(c.cfg.policy, Trimmed(document)) == Accepted(c.events[at].lic)
      && (c.events[at].status != Expired ==> code == OK && c.hasLicense && c.license == c.events[at].lic)
  {
    hide Floor, Honest, CheckMachine, Trimmed;
    code, at := OK, 0;
    r := c.Import(document);
    if r != INSTALLED {
      return;
    }
    ghost var stored := c.world.stored;
    ghost var cached, resolved, server;
    code, cached, resolved, server := c.Check();
    at := |resolved|;
    if |Trimmed(document)| < CLIENT_BUF {
      NonEmptyToken(c.cfg.policy, Trimmed(document));
    }
  }

  lemma NonEmptyToken(policy: Policy, token: Text)
    requires CheckMachine(policy, token).Accepted?
    ensures token != []
  {
    hide VerifySegments;
    assert TrimLeft([]) == [] && TrimRight([]) == [];
    assert NextPeriod([], 0) == 0;
    assert Split([]).NoSegments?;
  }
}
