/** One request to the server: at most three attempts, and which answer decides. */
module Requests {
  import opened Radix
  import opened JsonTokenizer
  import opened Ports

  const HTTP_ATTEMPTS: nat := 3
  const BACKOFF_BASE_MS: nat := 200
  const BACKOFF_CAP_MS: nat := 5000
  const TOTAL_WAIT_CAP_MS: nat := 10000

  predicate IsSuccess(status: int) {
    200 <= status < 300
  }

  /** Answers worth another attempt. */
  predicate IsTransient(status: int) {
    status == 429 || status == 408 || (status >= 500 && status != 501 && status != 505)
  }

  /** Too many requests, time-outs and server errors pass; what the server does not implement, and any other answer, stays. */
  lemma TransientStatuses(status: int)
    requires 100 <= status <= 599
    ensures IsTransient(status) <==> status == 408 || status == 429 || status == 500 || 502 <= status <= 504 || 506 <= status
    ensures IsSuccess(status) ==> !IsTransient(status)
  {}

  /** The server, or a proxy on the way to it, answered. */
  predicate Delivered(a: Answer) {
    a.ok && a.status != 0
  }

  predicate Retried(a: Answer) {
    !Delivered(a) || IsTransient(a.status)
  }

  /** Port call of the last attempt, when the first is n. */
  ghost function LastTry(w: World, n: nat): (k: nat)
    ensures n <= k <= n + 2
  {
    if !Retried(w.sendAt(n)) then n else if !Retried(w.sendAt(n + 1)) then n + 1 else n + 2
  }

  /** It is the first answer not worth another attempt, or the third. */
  lemma LastTryExact(w: World, n: nat, k: nat)
    ensures k == LastTry(w, n) <==>
              && n <= k <= n + 2 && (forall j :: n <= j < k ==> Retried(w.sendAt(j)))
              && (k == n + 2 || !Retried(w.sendAt(k)))
  {
    hide Retried;
    if n <= k <= n + 2 && forall j :: n <= j < k ==> Retried(w.sendAt(j)) {
      assert k > n ==> Retried(w.sendAt(n));
      assert k > n + 1 ==> Retried(w.sendAt(n + 1));
    }
  }

  /** The outcome of a request: the address does not fit, no answer at all, access refused, or an answer. */
  datatype Reply = TooLong | Lost(failure: NetFailure) | Denied(status: int, body: Buffered) | Answered(status: int, body: Buffered)

  /** The outcome of the request whose address is checked at port call n. */
  ghost function ReplyTo(w: World, n: nat): Reply {
    if !w.urlFitsAt(n) then TooLong else ReplyOf(w.sendAt(LastTry(w, n + 1)))
  }

  function ReplyOf(a: Answer): Reply {
    if !Delivered(a) then Lost(if a.failure == NoFailure then UnknownFailure else a.failure)
    else if a.status == 401 || a.status == 403 || a.status == 407 then Denied(a.status, a.body)
    else Answered(a.status, a.body)
  }

  /** The port call after that request. */
  ghost function After(w: World, n: nat): (m: nat)
    ensures m > n
  {
    if !w.urlFitsAt(n) then n + 1 else LastTry(w, n + 1) + 1
  }

  /** What goes out for it: one and the same request, up to three times. */
  ghost function Tried(w: World, request: Request, n: nat): seq<Sent> {
    if !w.urlFitsAt(n) then [] else Attempts(request, n + 1, LastTry(w, n + 1) - n)
  }

  function Attempts(request: Request, first: nat, k: nat): (t: seq<Sent>)
    ensures |t| == k
  {
    if k == 0 then [] else Attempts(request, first, k - 1) + [Sent(request, first + k - 1)]
  }

  /** The wait after attempt number `attempt`: what the server asked for in a 32-bit product, capped, or doubling from the base. */
  function Wait(a: Answer, attempt: nat): nat
    requires 1 <= attempt <= 2
  {
    if Delivered(a) && a.retryAfter >= 0 then
      (var ms := a.retryAfter * 1000 % B32; if ms > BACKOFF_CAP_MS then BACKOFF_CAP_MS else ms)
    else if attempt == 1 then BACKOFF_BASE_MS else 2 * BACKOFF_BASE_MS
  }

  /** Up to five seconds as asked, five seconds for more than that, and 200 and 400 milliseconds when nothing is asked. */
  lemma WaitExact(a: Answer, attempt: nat)
    requires 1 <= attempt <= 2
    ensures Delivered(a) && 0 <= a.retryAfter <= 5 ==> Wait(a, attempt) == 1000 * a.retryAfter
    ensures Delivered(a) && 5 <= a.retryAfter <= 4294967 ==> Wait(a, attempt) == 5000
    ensures !Delivered(a) || a.retryAfter < 0 ==> Wait(a, attempt) == 200 * attempt
  {}

  /** The waits of a request whose first attempt is port call n. */
  ghost function Waits(w: World, n: nat): nat {
    WaitsFor(w, n, LastTry(w, n) - n)
  }

  function WaitsFor(w: World, n: nat, retries: nat): (ms: nat)
    requires retries <= 2
    ensures ms <= TOTAL_WAIT_CAP_MS
  {
    (if retries > 0 then Wait(w.sendAt(n), 1) else 0) + (if retries > 1 then Wait(w.sendAt(n + 1), 2) else 0)
  }

  lemma WentOut(w: World, request: Request, n: nat)
    requires w.urlFitsAt(n)
    ensures var k := LastTry(w, n + 1);
            && ReplyTo(w, n) == ReplyOf(w.sendAt(k)) && After(w, n) == k + 1 && Tried(w, request, n) == Attempts(request, n + 1, k - n)
            && Waits(w, n + 1) == WaitsFor(w, n + 1, k - n - 1)
  {}

  lemma Unsent(w: World, request: Request, n: nat)
    requires !w.urlFitsAt(n)
    ensures ReplyTo(w, n) == TooLong && After(w, n) == n + 1 && Tried(w, request, n) == []
  {}

  /** An address that fits and a good first answer: one request, and its answer is the outcome. */
  lemma FirstAnswerCounts(w: World, request: Request, n: nat)
    requires w.urlFitsAt(n) && w.sendAt(n + 1).ok && IsSuccess(w.sendAt(n + 1).status)
    ensures ReplyTo(w, n) == Answered(w.sendAt(n + 1).status, w.sendAt(n + 1).body)
    ensures After(w, n) == n + 2 && Tried(w, request, n) == [Sent(request, n + 1)] && Waits(w, n + 1) == 0
  {}

  /** Three attempts that bring no answer are a lost request. */
  lemma NoAnswerLost(w: World, n: nat)
    requires w.urlFitsAt(n) && forall j :: n < j <= n + 3 ==> !w.sendAt(j).ok
    ensures ReplyTo(w, n).Lost? && After(w, n) == n + 4
  {
    assert !w.sendAt(n + 1).ok && !w.sendAt(n + 2).ok && !w.sendAt(n + 3).ok;
  }
}
