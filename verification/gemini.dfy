/**
 * The retry loop of `analyze_content_with_gemini`: at most `Retries`
 * attempts, each paced by `EnforceRateLimit`; the first reply whose
 * (fence-stripped) text parses is returned, and a status 500, a JSON decode
 * error or any other exception all move on to the next attempt.
 */
module Gemini {
  import opened Wrappers
  import opened Json
  import opened Fence
  import opened Pacing

  /** `retries = 2` */
  const Retries: nat := 2

  /** What one call of the generation service gives back. */
  datatype Outcome =
    | ServerError         // the response reports status code 500
    | Reply(text: string) // the response text
    | Raised              // the call or the response access raised an exception

  /**
   * The service, as seen by the exporter: the outcome of the request with
   * the given number (the request counter after it was bumped) for the given
   * document text. The prompt is a fixed wrapping of that text.
   */
  type Service = (nat, string) -> Outcome

  /** `json.loads` on a reply: a JSON object, or `None` for a decode error. */
  type Parser = string -> Option<Record>

  /** What one analysis returns, the pacing state after it, and how many attempts it made. */
  datatype Analysis = Analysis(value: Option<Record>, pacer: Pacer, attempts: nat)

  /** The value request `n` yields on its own: the parse of its reply, if it has one that parses. */
  function Answer(service: Service, parse: Parser, content: string, n: nat): Option<Record>
  {
    match service(n, content)
    case Reply(text) => parse(ParserInput(text))
    case _ => None
  }

  /** Attempt number `attempt` of the loop and, if it fails, the attempts after it. */
  function Attempt(service: Service, parse: Parser, content: string, pacer: Pacer, attempt: nat): (a: Analysis)
    requires attempt < Retries
    ensures attempt < a.attempts <= Retries
    decreases Retries - attempt
  {
    var p := EnforceRateLimit(pacer);
    match service(p.counter, content)
    case ServerError =>
      if attempt < Retries - 1 then Attempt(service, parse, content, p, attempt + 1)
      else Analysis(None, p, attempt + 1)
    case Reply(text) =>
      (match parse(ParserInput(text))
       case Some(v) => Analysis(Some(v), p, attempt + 1)
       case None =>
         if attempt + 1 < Retries then Attempt(service, parse, content, p, attempt + 1)
         else Analysis(None, p, attempt + 1))
    case Raised =>
      if attempt + 1 < Retries then Attempt(service, parse, content, p, attempt + 1)
      else Analysis(None, p, attempt + 1)
  }

  /**
   * One pass of the loop, whatever the failure kind: stop with the request's
   * answer when it has one or when no attempt is left, go on otherwise.
   */
  lemma AttemptStep(service: Service, parse: Parser, content: string, pacer: Pacer, attempt: nat)
    requires attempt < Retries
    ensures var p := EnforceRateLimit(pacer);
      var answer := Answer(service, parse, content, p.counter);
      Attempt(service, parse, content, pacer, attempt)
        == if answer.Some? || attempt + 1 == Retries then Analysis(answer, p, attempt + 1)
           else Attempt(service, parse, content, p, attempt + 1)
  {
    var p := EnforceRateLimit(pacer);
    match service(p.counter, content)
    case ServerError =>
    case Reply(text) =>
      assert Answer(service, parse, content, p.counter) == parse(ParserInput(text));
    case Raised =>
  }

  /**
   * From attempt `attempt` on, every request but the last yields nothing, the
   * last one's answer is the result, and a missing result means the loop ran
   * out of attempts.
   */
  lemma {:induction false} AttemptOutcome(service: Service, parse: Parser, content: string, pacer: Pacer, attempt: nat)
    requires attempt < Retries
    ensures var a := Attempt(service, parse, content, pacer, attempt);
      && a.pacer == Run(pacer, a.attempts - attempt)
      && (forall n :: pacer.counter < n < a.pacer.counter ==> Answer(service, parse, content, n).None?)
      && a.value == Answer(service, parse, content, a.pacer.counter)
      && (a.value.None? ==> a.attempts == Retries)
    decreases Retries - attempt
  {
    var p := EnforceRateLimit(pacer);
    var a := Attempt(service, parse, content, pacer, attempt);
    AttemptStep(service, parse, content, pacer, attempt);
    if Answer(service, parse, content, p.counter).None? && attempt + 1 < Retries {
      AttemptOutcome(service, parse, content, p, attempt + 1);
      assert a == Attempt(service, parse, content, p, attempt + 1);
      var k := a.attempts - attempt;
      assert Run(pacer, k) == Run(p, k - 1);
      forall n | pacer.counter < n < a.pacer.counter
        ensures Answer(service, parse, content, n).None?
      {
        if n == p.counter {
        }
      }
    } else {
      assert a == Analysis(Answer(service, parse, content, p.counter), p, attempt + 1);
      assert Run(pacer, 1) == p;
    }
  }

  /**
   * `analyze_content_with_gemini(content)`: between one and `Retries`
   * requests, numbered on from the pacer's counter; every request but the
   * last yielded nothing, and the last one's answer is the result — so the
   * result is absent only when all `Retries` requests yielded nothing.
   */
  function AnalyzeContent(service: Service, parse: Parser, content: string, pacer: Pacer): (a: Analysis)
    ensures 1 <= a.attempts <= Retries
    ensures a.pacer == Run(pacer, a.attempts)
    ensures forall n :: pacer.counter < n < a.pacer.counter ==> Answer(service, parse, content, n).None?
    ensures a.value == Answer(service, parse, content, a.pacer.counter)
    ensures a.value.None? ==> a.attempts == Retries
  {
    AttemptOutcome(service, parse, content, pacer, 0);
    Attempt(service, parse, content, pacer, 0)
  }

  /** The result is absent exactly when every one of the `Retries` requests yields nothing. */
  lemma AbsentIffAllAttemptsFail(service: Service, parse: Parser, content: string, pacer: Pacer)
    ensures AnalyzeContent(service, parse, content, pacer).value.None?
        <==> forall n :: pacer.counter < n <= pacer.counter + Retries ==> Answer(service, parse, content, n).None?
  {
    var a := AnalyzeContent(service, parse, content, pacer);
    if a.value.Some? && a.attempts == 2 {
      assert Answer(service, parse, content, pacer.counter + 2).Some?;
    }
  }

  /** A first request that parses is returned at once, with no second request. */
  lemma FirstAnswerWins(service: Service, parse: Parser, content: string, pacer: Pacer)
    requires Answer(service, parse, content, pacer.counter + 1).Some?
    ensures AnalyzeContent(service, parse, content, pacer)
         == Analysis(Answer(service, parse, content, pacer.counter + 1), EnforceRateLimit(pacer), 1)
  {
    AttemptStep(service, parse, content, pacer, 0);
  }

  /**
   * A failed first request — status 500, decode error or exception alike —
   * leads to a second request, whose answer is the result.
   */
  lemma FailureIsRetriedOnce(service: Service, parse: Parser, content: string, pacer: Pacer)
    requires Answer(service, parse, content, pacer.counter + 1).None?
    ensures AnalyzeContent(service, parse, content, pacer)
         == Analysis(Answer(service, parse, content, pacer.counter + 2), Run(pacer, 2), 2)
  {
    var p := EnforceRateLimit(pacer);
    AttemptStep(service, parse, content, pacer, 0);
    AttemptStep(service, parse, content, p, 1);
    assert Run(pacer, 2) == Run(p, 1) == EnforceRateLimit(p);
  }

  /**
   * The loop does not tell its failure kinds apart: two services whose
   * requests yield the same answers give the same analysis, whether a
   * failure was a status 500, a reply that does not parse or an exception.
   */
  lemma FailureKindsAreAlike(s1: Service, s2: Service, parse: Parser, content: string, pacer: Pacer)
    requires forall n :: Answer(s1, parse, content, n) == Answer(s2, parse, content, n)
    ensures AnalyzeContent(s1, parse, content, pacer) == AnalyzeContent(s2, parse, content, pacer)
  {
    if Answer(s1, parse, content, pacer.counter + 1).Some? {
      FirstAnswerWins(s1, parse, content, pacer);
      FirstAnswerWins(s2, parse, content, pacer);
    } else {
      FailureIsRetriedOnce(s1, parse, content, pacer);
      FailureIsRetriedOnce(s2, parse, content, pacer);
    }
  }

  /** A reply that parses to an empty object is still a success: it ends the loop. */
  lemma EmptyObjectEndsLoop(service: Service, parse: Parser, content: string, pacer: Pacer, text: string)
    requires service(pacer.counter + 1, content) == Reply(text)
    requires parse(ParserInput(text)) == Some(map[])
    ensures AnalyzeContent(service, parse, content, pacer).attempts == 1
    ensures AnalyzeContent(service, parse, content, pacer).value == Some(map[])
  {
    assert Answer(service, parse, content, pacer.counter + 1) == Some(map[]);
    FirstAnswerWins(service, parse, content, pacer);
  }
}
