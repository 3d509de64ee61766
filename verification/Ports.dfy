/** The environment of a client: clock, time service, server and storage, whose answers are arbitrary. */
module Ports {
  import opened Radix
  import opened JsonTokenizer
  import opened Jws

  datatype NetFailure = NoFailure | UnknownFailure | NameResolution | SecureConnection | Proxy | Timeout | Connection

  /** A text that fits the response or cache buffer with its terminator. */
  type Buffered = t: Text | |t| < CLIENT_BUF witness []

  /** What a transport call leaves: whether it succeeded, the status, the body, Retry-After in seconds or -1, and the cause of a failure. */
  datatype Answer = Answer(ok: bool, status: int, body: Buffered, retryAfter: int, failure: NetFailure)

  datatype TimeAnswer = NoTime | Time(t: int64)

  /** A read gives the stored bytes, cut to the buffer, or anything else. */
  datatype ReadAnswer = Faithful | Other(bytes: Buffered)

  /** A failed write leaves the old contents or, if it fails late, the new ones. */
  datatype WriteAnswer = Written | FailedBefore | FailedAfter

  function Cut(t: Text): Buffered {
    if |t| < CLIENT_BUF then t else t[..CLIENT_BUF - 1]
  }

  function ReadBack(a: ReadAnswer, stored: Text): Buffered {
    match a case Faithful => Cut(stored) case Other(bytes) => bytes
  }

  /** What is asked of the server; a patch carries the receipt code, or frees the seat. */
  datatype Request = GetTime | PostComputer | GetComputer | PostLicense | GetLicense | PatchReceipt(receipt: Text)

  /** A request that went out as port call number `at`. */
  datatype Sent = Sent(request: Request, at: nat)

  /** The answers are given for every port call by its number, so a statement about a World holds for every environment. */
  class World {
    const clockAt: nat -> int64
    const timesyncAt: nat -> TimeAnswer
    /** Whether the address of the request fits its buffer. */
    const urlFitsAt: nat -> bool
    const sendAt: nat -> Answer
    const readAt: nat -> ReadAnswer
    const writeAt: nat -> WriteAnswer
    /** Number of port calls so far. */
    var calls: nat
    /** Requests sent and milliseconds slept so far. */
    var sent: nat
    var slept: nat
    var stored: Text
    /** Every request sent, in order. */
    ghost var log: seq<Sent>

    constructor (clockAt: nat -> int64, timesyncAt: nat -> TimeAnswer, urlFitsAt: nat -> bool, sendAt: nat -> Answer, readAt: nat -> ReadAnswer,
                 writeAt: nat -> WriteAnswer, stored: Text)
      ensures this.stored == stored && sent == slept == 0
    {
      this.clockAt, this.timesyncAt, this.urlFitsAt, this.sendAt := clockAt, timesyncAt, urlFitsAt, sendAt;
      this.readAt, this.writeAt := readAt, writeAt;
      this.stored := stored;
      calls, sent, slept, log := 0, 0, 0, [];
    }

    /** Every read returns what is stored. */
    ghost predicate FaithfulReads() {
      forall n :: readAt(n) == Faithful
    }

    method Clock() returns (t: int64)
      modifies this`calls
      ensures calls == old(calls) + 1 && t == clockAt(old(calls))
    {
      t := clockAt(calls);
      calls := calls + 1;
    }

    method Timesync() returns (a: TimeAnswer)
      modifies this`calls
      ensures calls == old(calls) + 1 && a == timesyncAt(old(calls))
    {
      a := timesyncAt(calls);
      calls := calls + 1;
    }

    method UrlFits() returns (fits: bool)
      modifies this`calls
      ensures calls == old(calls) + 1 && fits == urlFitsAt(old(calls))
    {
      fits := urlFitsAt(calls);
      calls := calls + 1;
    }

    method Send(request: Request) returns (a: Answer)
      modifies this`calls, this`sent, this`log
      ensures sent == old(sent) + 1 && calls == old(calls) + 1 && a == sendAt(old(calls))
      ensures log == old(log) + [Sent(request, old(calls))]
    {
      log := log + [Sent(request, calls)];
      a := sendAt(calls);
      calls := calls + 1;
      sent := sent + 1;
    }

    method Sleep(ms: nat)
      modifies this`slept
      ensures slept == old(slept) + ms
    {
      slept := slept + ms;
    }

    method Read() returns (bytes: Buffered)
      modifies this`calls
      ensures calls == old(calls) + 1 && bytes == ReadBack(readAt(old(calls)), stored)
    {
      var a := readAt(calls);
      calls := calls + 1;
      bytes := ReadBack(a, stored);
    }

    method Write(data: Text) returns (ok: bool)
      modifies this`calls, this`stored
      ensures calls == old(calls) + 1
      ensures ok <==> writeAt(old(calls)) == Written
      ensures stored == if writeAt(old(calls)) == FailedBefore then old(stored) else data
    {
      var a := writeAt(calls);
      calls := calls + 1;
      if a != FailedBefore {
        stored := data;
      }
      ok := a == Written;
    }
  }
}
