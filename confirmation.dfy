/**
 * The confirmation client (`accept_trade`): up to `max_retries` GET requests against the
 * confirmation URL, each outcome classified as success or as a failed attempt. The HTTP
 * client is an oracle `respond`: `respond(j)` is the outcome of the j-th request. Waits
 * are recorded as events instead of being slept.
 */
module Confirmation {

  import opened Wrappers
  import opened Text
  import opened Catalogue

  /**
   * What one request ends in: a response with its status and body; a connection error or
   * timeout; another `RequestException`; any other exception.
   */
  datatype Outcome =
    | Response(status: int, body: string)
    | ConnectionFailure
    | RequestFailure
    | UnexpectedFailure

  /** A GET of the URL for attempt `attempt`, a 5-15 s wait, or a 10-30 s wait. */
  datatype Event = Get(url: string, attempt: nat) | ShortWait | LongWait

  /** The result of a whole confirmation: the verdict, the requests made and the events. */
  datatype Run = Run(accepted: bool, requests: nat, events: seq<Event>)

  /** A 200 whose lowered body has a success phrase, or has no error phrase, ends in `True`. */
  predicate Accepts(o: Outcome, lang: Language)
    ensures Accepts(o, lang) ==> o.Response? && o.status == 200
  {
    o.Response? && o.status == 200 &&
    (ContainsAny(Lower(o.body), Phrases(lang, SuccessIndicators)) ||
     !ContainsAny(Lower(o.body), Phrases(lang, ErrorIndicators)))
  }

  /** The first accepting attempt among attempts `i` to `n - 1`, if any. */
  function FirstAcceptingFrom(respond: nat -> Outcome, lang: Language, i: nat, n: nat): (r: Option<nat>)
    ensures r.Some? ==> i <= r.value < n && Accepts(respond(r.value), lang)
    ensures r.Some? ==> forall j :: i <= j < r.value ==> !Accepts(respond(j), lang)
    ensures r.None? <==> forall j :: i <= j < n ==> !Accepts(respond(j), lang)
    decreases n - i
  {
    if i >= n then None
    else if Accepts(respond(i), lang) then Some(i)
    else FirstAcceptingFrom(respond, lang, i + 1, n)
  }

  /**
   * The events of attempt `i`: a short wait unless it is the first, the request, and a long
   * wait after a connection failure that is not on the final attempt.
   */
  function AttemptEvents(url: string, respond: nat -> Outcome, maxRetries: int, i: nat): seq<Event>
  {
    (if i > 0 then [ShortWait] else []) + [Get(url, i)] +
    (if respond(i).ConnectionFailure? && i < maxRetries - 1 then [LongWait] else [])
  }

  /** The events of attempts `0` to `n - 1`. */
  function Trace(url: string, respond: nat -> Outcome, maxRetries: int, n: nat): seq<Event>
  {
    if n == 0 then [] else Trace(url, respond, maxRetries, n - 1) + AttemptEvents(url, respond, maxRetries, n - 1)
  }

  /** The attempt budget: `range(max_retries)` is empty for a budget of zero or less. */
  function Budget(maxRetries: int): nat
  {
    if maxRetries > 0 then maxRetries else 0
  }

  /** The whole confirmation: stop at the first accepting attempt, or fail after the budget. */
  function AcceptRun(url: string, respond: nat -> Outcome, maxRetries: int, lang: Language): (r: Run)
    ensures r.requests <= Budget(maxRetries)
    ensures r.accepted ==> r.requests > 0 && Accepts(respond(r.requests - 1), lang)
    ensures !r.accepted ==>
      r.requests == Budget(maxRetries) && forall j :: 0 <= j < r.requests ==> !Accepts(respond(j), lang)
  {
    match FirstAcceptingFrom(respond, lang, 0, Budget(maxRetries))
    case Some(k) => Run(true, k + 1, Trace(url, respond, maxRetries, k + 1))
    case None => Run(false, Budget(maxRetries), Trace(url, respond, maxRetries, Budget(maxRetries)))
  }

  /** A run that stops at attempt `a` because it accepts. */
  lemma AcceptRunStopsAt(url: string, respond: nat -> Outcome, maxRetries: int, lang: Language, a: nat)
    requires a < Budget(maxRetries) && Accepts(respond(a), lang)
    requires forall j :: 0 <= j < a ==> !Accepts(respond(j), lang)
    ensures AcceptRun(url, respond, maxRetries, lang) == Run(true, a + 1, Trace(url, respond, maxRetries, a + 1))
  {
  }

  /** A run whose final attempt `a` fails too. */
  lemma AcceptRunExhausted(url: string, respond: nat -> Outcome, maxRetries: int, lang: Language, a: nat)
    requires a + 1 == Budget(maxRetries)
    requires forall j :: 0 <= j <= a ==> !Accepts(respond(j), lang)
    ensures AcceptRun(url, respond, maxRetries, lang) == Run(false, a + 1, Trace(url, respond, maxRetries, a + 1))
  {
  }

  /** `accept_trade`: the attempt loop with its `continue`s and early returns. */
  method AcceptTrade(confirmUrl: string, maxRetries: int, lang: Language, respond: nat -> Outcome)
    returns (accepted: bool, ghost requests: nat, ghost events: seq<Event>)
    ensures accepted <==> exists k :: 0 <= k < maxRetries && Accepts(respond(k), lang)
    ensures Run(accepted, requests, events) == AcceptRun(confirmUrl, respond, maxRetries, lang)
  {
    accepted, requests, events := false, 0, [];
    var attempt: nat := 0;
    while attempt < maxRetries
      invariant attempt <= Budget(maxRetries)
      invariant requests == attempt
      invariant events == Trace(confirmUrl, respond, maxRetries, attempt)
      invariant forall j :: 0 <= j < attempt ==> !Accepts(respond(j), lang)
    {
      ghost var before := events;
      if attempt > 0 {
        events := events + [ShortWait];
      }
      var outcome := respond(attempt);
      requests, events := requests + 1, events + [Get(confirmUrl, attempt)];
      assert events + (if outcome.ConnectionFailure? && attempt < maxRetries - 1 then [LongWait] else [])
        == Trace(confirmUrl, respond, maxRetries, attempt + 1);
      match outcome {
        case Response(status, body) =>
          if status == 200 {
            var responseText := Lower(body);
            if ContainsAny(responseText, Phrases(lang, SuccessIndicators)) {
              AcceptRunStopsAt(confirmUrl, respond, maxRetries, lang, attempt);
              accepted := true;
              return;
            } else if ContainsAny(responseText, Phrases(lang, ErrorIndicators)) {
              if attempt < maxRetries - 1 {
                attempt := attempt + 1;
                continue;
              }
              AcceptRunExhausted(confirmUrl, respond, maxRetries, lang, attempt);
              return;
            } else {
              AcceptRunStopsAt(confirmUrl, respond, maxRetries, lang, attempt);
              accepted := true;
              return;
            }
          } else {
            if attempt < maxRetries - 1 {
              attempt := attempt + 1;
              continue;
            }
            AcceptRunExhausted(confirmUrl, respond, maxRetries, lang, attempt);
            return;
          }
        case ConnectionFailure =>
          if attempt < maxRetries - 1 {
            events := events + [LongWait];
            attempt := attempt + 1;
            continue;
          } else {
            AcceptRunExhausted(confirmUrl, respond, maxRetries, lang, attempt);
            return;
          }
        case RequestFailure =>
          if attempt < maxRetries - 1 {
            attempt := attempt + 1;
            continue;
          }
          AcceptRunExhausted(confirmUrl, respond, maxRetries, lang, attempt);
          return;
        case UnexpectedFailure =>
          if attempt < maxRetries - 1 {
            attempt := attempt + 1;
            continue;
          }
          AcceptRunExhausted(confirmUrl, respond, maxRetries, lang, attempt);
          return;
      }
    }
  }

  /** The attempt numbers of the requests among `events`, in order. */
  function Attempts(events: seq<Event>): seq<nat>
  {
    if events == [] then []
    else
      var last := events[|events| - 1];
      Attempts(events[..|events| - 1]) + (if last.Get? then [last.attempt] else [])
  }

  lemma {:induction false} AttemptsAppend(a: seq<Event>, b: seq<Event>)
    ensures Attempts(a + b) == Attempts(a) + Attempts(b)
  {
    if b == [] {
      assert a + b == a;
    } else {
      assert (a + b)[..|a + b| - 1] == a + b[..|b| - 1];
      AttemptsAppend(a, b[..|b| - 1]);
    }
  }

  /** `0, 1, ..., n - 1`. */
  function Range(n: nat): (r: seq<nat>)
    ensures |r| == n && forall i :: 0 <= i < n ==> r[i] == i
  {
    seq(n, i requires 0 <= i < n => i)
  }

  /** Each attempt makes exactly one request. */
  lemma AttemptMakesOneRequest(url: string, respond: nat -> Outcome, maxRetries: int, i: nat)
    ensures Attempts(AttemptEvents(url, respond, maxRetries, i)) == [i]
  {
    var w := if i > 0 then [ShortWait] else [];
    var l := if respond(i).ConnectionFailure? && i < maxRetries - 1 then [LongWait] else [];
    AttemptsAppend(w, [Get(url, i)]);
    AttemptsAppend(w + [Get(url, i)], l);
    assert Attempts(w) == [] && Attempts(l) == [];
    assert Attempts([Get(url, i)]) == [i];
  }

  /** The first `n` attempts make exactly the requests `0, ..., n - 1`, one each, in order. */
  lemma {:induction false} TraceRequestsInOrder(url: string, respond: nat -> Outcome, maxRetries: int, n: nat)
    ensures Attempts(Trace(url, respond, maxRetries, n)) == Range(n)
  {
    if n > 0 {
      var prev := Trace(url, respond, maxRetries, n - 1);
      var step := AttemptEvents(url, respond, maxRetries, n - 1);
      assert Trace(url, respond, maxRetries, n) == prev + step;
      TraceRequestsInOrder(url, respond, maxRetries, n - 1);
      AttemptsAppend(prev, step);
      AttemptMakesOneRequest(url, respond, maxRetries, n - 1);
      assert Attempts(prev + step) == Range(n - 1) + [n - 1];
      assert Range(n - 1) + [n - 1] == Range(n);
    }
  }

  /**
   * At most `max_retries` requests, none for a budget of zero or less, each attempt
   * requested once and in order; the verdict is true exactly when the last request accepted.
   */
  lemma RunShape(url: string, respond: nat -> Outcome, maxRetries: int, lang: Language)
    ensures var r := AcceptRun(url, respond, maxRetries, lang);
      r.requests <= Budget(maxRetries) &&
      Attempts(r.events) == Range(r.requests) &&
      (maxRetries <= 0 ==> r == Run(false, 0, [])) &&
      (r.accepted <==> r.requests > 0 && Accepts(respond(r.requests - 1), lang)) &&
      (!r.accepted ==> r.requests == Budget(maxRetries))
  {
    var r := AcceptRun(url, respond, maxRetries, lang);
    TraceRequestsInOrder(url, respond, maxRetries, r.requests);
    if !r.accepted && r.requests > 0 {
      assert !Accepts(respond(r.requests - 1), lang);
    }
  }

  /** The first request is made without waiting. */
  lemma {:induction false} FirstRequestImmediate(url: string, respond: nat -> Outcome, maxRetries: int, n: nat)
    requires n > 0
    ensures Trace(url, respond, maxRetries, n)[0] == Get(url, 0)
  {
    if n > 1 {
      FirstRequestImmediate(url, respond, maxRetries, n - 1);
    }
  }

  /** A first reply that accepts ends the run after one request and no wait. */
  lemma FirstAttemptAccepted(url: string, respond: nat -> Outcome, maxRetries: int, lang: Language)
    requires maxRetries > 0 && Accepts(respond(0), lang)
    ensures AcceptRun(url, respond, maxRetries, lang) == Run(true, 1, [Get(url, 0)])
  {
    assert Trace(url, respond, maxRetries, 1) == [Get(url, 0)];
  }

  /**
   * How a 200 reply is read: a success phrase wins even beside an error phrase; a reply with
   * neither counts as success; only an error phrase without a success phrase fails.
   */
  lemma ReplyClassification(body: string, lang: Language)
    ensures ContainsAny(Lower(body), Phrases(lang, SuccessIndicators)) ==> Accepts(Response(200, body), lang)
    ensures !ContainsAny(Lower(body), Phrases(lang, ErrorIndicators)) ==> Accepts(Response(200, body), lang)
    ensures !Accepts(Response(200, body), lang) <==>
      !ContainsAny(Lower(body), Phrases(lang, SuccessIndicators)) &&
      ContainsAny(Lower(body), Phrases(lang, ErrorIndicators))
    ensures forall status :: status != 200 ==> !Accepts(Response(status, body), lang)
  {
  }

  /** Three server errors: three requests with a short wait between them, then false. */
  lemma ThreeServerErrors(url: string, respond: nat -> Outcome, lang: Language)
    requires forall j :: respond(j).Response? && respond(j).status == 500
    ensures AcceptRun(url, respond, 3, lang) ==
      Run(false, 3, [Get(url, 0), ShortWait, Get(url, 1), ShortWait, Get(url, 2)])
  {
    assert !Accepts(respond(0), lang) && !Accepts(respond(1), lang) && !Accepts(respond(2), lang);
    assert Trace(url, respond, 3, 1) == [Get(url, 0)];
    assert Trace(url, respond, 3, 2) == [Get(url, 0), ShortWait, Get(url, 1)];
  }

  /** Connection failures add a long wait after every attempt but the last. */
  lemma ThreeConnectionFailures(url: string, respond: nat -> Outcome, lang: Language)
    requires forall j :: respond(j) == ConnectionFailure
    ensures AcceptRun(url, respond, 3, lang) ==
      Run(false, 3, [Get(url, 0), LongWait, ShortWait, Get(url, 1), LongWait, ShortWait, Get(url, 2)])
  {
    assert !Accepts(respond(0), lang) && !Accepts(respond(1), lang) && !Accepts(respond(2), lang);
    assert Trace(url, respond, 3, 1) == [Get(url, 0), LongWait];
    assert Trace(url, respond, 3, 2) == [Get(url, 0), LongWait, ShortWait, Get(url, 1), LongWait];
  }
}
