/** The delegating stages of the middleware layer: `ModelMiddleware`,
    `RetryMiddleware` and `ValidationMiddleware`. A chain of stages sits on
    top of a backend language model; each stage forwards `chat(prompt,
    **kwargs)` to the stage below it, adding keywords, re-attempting or
    checking the reply on the way. */
module Middleware {

  /** The exceptions a `chat` call can end in. The `LLM...Error` family is
      raised by the backend or by the stages; Python's `TypeError` for a
      keyword given twice to one call is `DuplicateKeyword`; any other
      exception, such as one a validation predicate raises, is `Raised`,
      named by its class. */
  datatype Failure =
    | ServiceError          // LLMError
    | ConfigurationError    // LLMConfigurationError
    | ConnectivityError     // LLMConnectivityError
    | PermissionError       // LLMPermissionError
    | RateLimitError        // LLMRateLimitError
    | RequestError          // LLMRequestError
    | ResponseError         // LLMResponseError
    | ResultError           // LLMResultError
    | DuplicateKeyword(keyword: string)
    | Raised(name: string)

  datatype Result<T> = Ok(value: T) | Err(error: Failure)

  /** A keyword argument's value: the model name, or the streaming flag. */
  datatype Arg = Text(text: string) | Flag(flag: bool)

  /** The arguments of one `chat` call. */
  datatype Request = Request(prompt: string, kwargs: map<string, Arg>)

  /** One middleware stage, with the field its dataclass holds. A retry's
      tenacity options are modelled as `stop_after_attempt(attempts)`. A
      validation predicate either answers or raises: `Ok(b)` or `Err(f)`. */
  datatype Stage =
    | Model(model: string)
    | Retry(attempts: nat)
    | Validate(check: string -> Result<bool>)

  /** The language model at the bottom of the chain. Its reply may depend on
      how many calls reached it before (the `_count` of the test client), so
      it also takes the index of the call. */
  type Backend = (Request, nat) -> Result<string>

  /** The outcome of a `chat` call through a chain: the reply or the
      exception, and the requests that reached the backend, in order. */
  datatype Run = Run(result: Result<string>, sent: seq<Request>)

  /** `run` preceded by calls that reached the backend before it. */
  function After(earlier: seq<Request>, run: Run): Run {
    Run(run.result, earlier + run.sent)
  }

  /** `chat` through `chain` (stages in the order they were added, so the
      last one is outermost) on top of `backend`, when `calls` calls have
      already reached the backend. */
  function Chat(chain: seq<Stage>, backend: Backend, req: Request, calls: nat): Run
    decreases |chain|, 1, 0
  {
    if chain == [] then Run(backend(req, calls), [req])
    else
      var inner := chain[..|chain| - 1];
      match chain[|chain| - 1]
      case Model(m) =>
        if "model" in req.kwargs then Run(Err(DuplicateKeyword("model")), [])
        else Chat(inner, backend, req.(kwargs := req.kwargs["model" := Text(m)]), calls)
      case Retry(n) => Attempts(inner, backend, req, calls, 1, n)
      case Validate(p) =>
        var run := Chat(inner, backend, req, calls);
        if run.result.Err? || p(run.result.value) == Ok(true) then run
        else Run(Err(Rejection(p(run.result.value))), run.sent)
  }

  /** The exception a validation ends in when its predicate does not answer
      `True`: the predicate's own exception, or `LLMResultError` for `False`. */
  function Rejection(verdict: Result<bool>): Failure {
    if verdict.Err? then verdict.error else ResultError
  }

  /** The body of one retry attempt: the inner chain called with
      `streaming=False` added to the caller's keywords. */
  function Attempt(inner: seq<Stage>, backend: Backend, req: Request, calls: nat): Run
    decreases |inner|, 2, 0
  {
    if "streaming" in req.kwargs then Run(Err(DuplicateKeyword("streaming")), [])
    else Chat(inner, backend, Unstreamed(req), calls)
  }

  /** Attempts number `attempt`, `attempt + 1`, ... of a retry stopping after
      attempt `n`: the first attempt that does not raise gives the result;
      once the stop condition holds after a failed attempt, `RetryError` is
      raised and turned into `LLMResultError`. tenacity checks the stop
      condition only after an attempt, so at least one attempt is made. */
  function Attempts(inner: seq<Stage>, backend: Backend, req: Request, calls: nat, attempt: nat, n: nat): Run
    requires 1 <= attempt
    decreases |inner| + 1, 0, if attempt < n then n - attempt else 0
  {
    var run := Attempt(inner, backend, req, calls);
    if run.result.Ok? then run
    else if attempt >= n then Run(Err(ResultError), run.sent)
    else After(run.sent, Attempts(inner, backend, req, calls + |run.sent|, attempt + 1, n))
  }

  /** `RetryMiddleware.chat`: tenacity's attempt loop over the inner chain. */
  method RetryChat(inner: seq<Stage>, n: nat, backend: Backend, req: Request, calls: nat)
    returns (run: Run)
    ensures run == Chat(inner + [Retry(n)], backend, req, calls)
  {
    assert (inner + [Retry(n)])[..|inner|] == inner;
    var attempt := 1;
    var sent: seq<Request> := [];
    while true
      invariant 1 <= attempt
      invariant Attempts(inner, backend, req, calls, 1, n)
                == After(sent, Attempts(inner, backend, req, calls + |sent|, attempt, n))
      decreases n - attempt
    {
      var one := Attempt(inner, backend, req, calls + |sent|);
      if one.result.Ok? {
        return Run(one.result, sent + one.sent);
      }
      if attempt >= n {
        return Run(Err(ResultError), sent + one.sent);
      }
      ghost var rest := Attempts(inner, backend, req, calls + |sent| + |one.sent|, attempt + 1, n);
      assert sent + (one.sent + rest.sent) == (sent + one.sent) + rest.sent;
      sent := sent + one.sent;
      attempt := attempt + 1;
    }
  }

  /** `run`'s reply is the backend's answer to the last request `run` sent,
      the calls before it having numbered `calls`. */
  predicate FromBackend(run: Run, backend: Backend, calls: nat) {
    run.sent != [] && run.result == backend(run.sent[|run.sent| - 1], calls + |run.sent| - 1)
  }

  /** No stage makes up a reply: whenever `chat` through a chain returns a
      reply, it is the backend's answer to the last request that reached it. */
  lemma {:induction false} ChatFromBackend(chain: seq<Stage>, backend: Backend, req: Request, calls: nat)
    ensures Chat(chain, backend, req, calls).result.Ok? ==> FromBackend(Chat(chain, backend, req, calls), backend, calls)
    decreases |chain|, 1, 0
  {
    if chain != [] {
      var inner := chain[..|chain| - 1];
      match chain[|chain| - 1]
      case Model(m) =>
        if "model" !in req.kwargs {
          ChatFromBackend(inner, backend, req.(kwargs := req.kwargs["model" := Text(m)]), calls);
        }
      case Retry(n) => AttemptsFromBackend(inner, backend, req, calls, 1, n);
      case Validate(p) => ChatFromBackend(inner, backend, req, calls);
    }
  }

  lemma {:induction false} AttemptsFromBackend(inner: seq<Stage>, backend: Backend, req: Request, calls: nat,
                                               attempt: nat, n: nat)
    requires 1 <= attempt
    ensures var run := Attempts(inner, backend, req, calls, attempt, n);
            run.result.Ok? ==> FromBackend(run, backend, calls)
    decreases |inner| + 1, 0, if attempt < n then n - attempt else 0
  {
    var run := Attempts(inner, backend, req, calls, attempt, n);
    var one := Attempt(inner, backend, req, calls);
    if one.result.Ok? {
      ChatFromBackend(inner, backend, Unstreamed(req), calls);
      assert run == one;
    } else if attempt < n {
      AttemptsFromBackend(inner, backend, req, calls + |one.sent|, attempt + 1, n);
      var rest := Attempts(inner, backend, req, calls + |one.sent|, attempt + 1, n);
      assert run == After(one.sent, rest);
      if rest.result.Ok? {
        assert run.sent[|run.sent| - 1] == rest.sent[|rest.sent| - 1];
      }
    }
  }

  // ---------------------------------------------------------------------
  // What every request reaching the backend carries

  /** Every key of `small` is in `big` with the same value. */
  predicate SubMap(small: map<string, Arg>, big: map<string, Arg>) {
    forall k :: k in small ==> k in big && big[k] == small[k]
  }

  /** The keywords a stage adds to the requests it forwards. */
  function Adds(stage: Stage): map<string, Arg> {
    match stage
    case Model(m) => map["model" := Text(m)]
    case Retry(_) => map["streaming" := Flag(false)]
    case Validate(_) => map[]
  }

  /** The keywords the stages of `chain` add, together. */
  function Added(chain: seq<Stage>): map<string, Arg> {
    if chain == [] then map[]
    else Adds(chain[|chain| - 1]) + Added(chain[..|chain| - 1])
  }

  /** `sent` is the caller's request with the keywords of `chain` added and
      nothing else: it has the caller's prompt, the caller's keywords and the
      keywords every stage of `chain` adds, and no other keyword. */
  predicate Carries(sent: Request, req: Request, chain: seq<Stage>) {
    sent == Request(req.prompt, req.kwargs + Added(chain))
    && SubMap(req.kwargs, sent.kwargs)
    && forall i :: 0 <= i < |chain| ==> SubMap(Adds(chain[i]), sent.kwargs)
  }

  lemma {:induction false} CarriesForward(sent: Request, req: Request, chain: seq<Stage>, k: string, v: Arg)
    requires chain != [] && Adds(chain[|chain| - 1]) == map[k := v]
    requires k !in req.kwargs
    requires Carries(sent, req.(kwargs := req.kwargs[k := v]), chain[..|chain| - 1])
    ensures Carries(sent, req, chain)
  {
    var fwd := req.kwargs[k := v];
    var inner := chain[..|chain| - 1];
    assert sent.kwargs == req.kwargs + Added(chain) by {
      assert fwd == req.kwargs + Adds(chain[|chain| - 1]);
    }
    forall i | 0 <= i < |chain|
      ensures SubMap(Adds(chain[i]), sent.kwargs)
    {
      if i < |chain| - 1 {
        assert chain[i] == chain[..|chain| - 1][i];
      }
    }
  }

  /** Every request that reaches the backend carries the caller's prompt
      unchanged, the caller's keywords, `model=` of every model stage and
      `streaming=False` of every retry stage. */
  lemma {:induction false} SentCarries(chain: seq<Stage>, backend: Backend, req: Request, calls: nat)
    ensures forall r :: r in Chat(chain, backend, req, calls).sent ==> Carries(r, req, chain)
    decreases |chain|, 1, 0
  {
    if chain != [] {
      var inner := chain[..|chain| - 1];
      match chain[|chain| - 1]
      case Model(m) =>
        if "model" !in req.kwargs {
          var fwd := req.(kwargs := req.kwargs["model" := Text(m)]);
          SentCarries(inner, backend, fwd, calls);
          forall r | r in Chat(chain, backend, req, calls).sent
            ensures Carries(r, req, chain)
          {
            CarriesForward(r, req, chain, "model", Text(m));
          }
        }
      case Retry(n) =>
        AttemptsCarry(inner, backend, req, calls, 1, n);
        forall r | r in Chat(chain, backend, req, calls).sent
          ensures Carries(r, req, chain)
        {
          CarriesForward(r, req, chain, "streaming", Flag(false));
        }
      case Validate(p) =>
        SentCarries(inner, backend, req, calls);
        forall r | r in Chat(chain, backend, req, calls).sent
          ensures Carries(r, req, chain)
        {
          assert Carries(r, req, inner);
          assert Added(chain) == Added(inner);
          forall i | 0 <= i < |chain|
            ensures SubMap(Adds(chain[i]), r.kwargs)
          {
            if i < |chain| - 1 {
              assert chain[i] == inner[i];
            }
          }
        }
    }
  }

  /** Every request a retry's attempts send carries `streaming=False` on top
      of the caller's keywords, and what the inner stages add. */
  lemma {:induction false} AttemptsCarry(inner: seq<Stage>, backend: Backend, req: Request, calls: nat,
                                         attempt: nat, n: nat)
    requires 1 <= attempt
    ensures "streaming" !in req.kwargs ==>
              forall r :: r in Attempts(inner, backend, req, calls, attempt, n).sent ==>
                Carries(r, req.(kwargs := req.kwargs["streaming" := Flag(false)]), inner)
    ensures "streaming" in req.kwargs ==> Attempts(inner, backend, req, calls, attempt, n).sent == []
    decreases |inner| + 1, 0, if attempt < n then n - attempt else 0
  {
    var run := Attempt(inner, backend, req, calls);
    if "streaming" !in req.kwargs {
      SentCarries(inner, backend, req.(kwargs := req.kwargs["streaming" := Flag(false)]), calls);
    }
    if !run.result.Ok? && attempt < n {
      AttemptsCarry(inner, backend, req, calls + |run.sent|, attempt + 1, n);
    }
  }

  /** A model stage pins `model=` on everything that reaches the backend. */
  lemma {:induction false} ModelPinned(chain: seq<Stage>, i: nat, backend: Backend, req: Request, calls: nat)
    requires i < |chain| && chain[i].Model?
    ensures forall r :: r in Chat(chain, backend, req, calls).sent ==>
              "model" in r.kwargs && r.kwargs["model"] == Text(chain[i].model)
  {
    SentCarries(chain, backend, req, calls);
    forall r | r in Chat(chain, backend, req, calls).sent
      ensures "model" in r.kwargs && r.kwargs["model"] == Text(chain[i].model)
    {
      assert SubMap(Adds(chain[i]), r.kwargs);
      assert "model" in Adds(chain[i]);
    }
  }

  /** Below a retry stage, every request reaching the backend has
      `streaming=False`. */
  lemma {:induction false} RetryUnstreamed(chain: seq<Stage>, i: nat, backend: Backend, req: Request, calls: nat)
    requires i < |chain| && chain[i].Retry?
    ensures forall r :: r in Chat(chain, backend, req, calls).sent ==>
              "streaming" in r.kwargs && r.kwargs["streaming"] == Flag(false)
  {
    SentCarries(chain, backend, req, calls);
    forall r | r in Chat(chain, backend, req, calls).sent
      ensures "streaming" in r.kwargs && r.kwargs["streaming"] == Flag(false)
    {
      assert SubMap(Adds(chain[i]), r.kwargs);
      assert "streaming" in Adds(chain[i]);
    }
  }

  // ---------------------------------------------------------------------
  // Validation

  /** `chain` followed by validate stages with the predicates `ps`, the
      first of them innermost. */
  function WithValidates(chain: seq<Stage>, ps: seq<string -> Result<bool>>): (r: seq<Stage>)
    ensures |r| == |chain| + |ps|
    ensures r[..|chain|] == chain
    ensures forall i :: 0 <= i < |ps| ==> r[|chain| + i] == Validate(ps[i])
  {
    if ps == [] then chain
    else WithValidates(chain, ps[..|ps| - 1]) + [Validate(ps[|ps| - 1])]
  }

  /** Validate stages on top of a chain make no calls of their own; they keep
      the inner reply when every predicate answers `True`; otherwise the
      innermost predicate that does not decides: its own exception if it
      raised, `LLMResultError` if it answered `False`. An inner error passes
      through unchanged. */
  lemma {:induction false} ValidatesConjoin(chain: seq<Stage>, ps: seq<string -> Result<bool>>,
                                            backend: Backend, req: Request, calls: nat)
    ensures var inner := Chat(chain, backend, req, calls);
            var run := Chat(WithValidates(chain, ps), backend, req, calls);
            && run.sent == inner.sent
            && (inner.result.Err? ==> run.result == inner.result)
            && (inner.result.Ok? ==>
                  var t := inner.result.value;
                  if forall i :: 0 <= i < |ps| ==> ps[i](t) == Ok(true)
                  then run.result == inner.result
                  else exists j :: 0 <= j < |ps| && ps[j](t) != Ok(true)
                                   && (forall i :: 0 <= i < j ==> ps[i](t) == Ok(true))
                                   && run.result == Err(Rejection(ps[j](t))))
    decreases |ps|
  {
    if ps != [] {
      var ps' := ps[..|ps| - 1];
      var last := |ps| - 1;
      ValidatesConjoin(chain, ps', backend, req, calls);
      var outer := WithValidates(chain, ps);
      assert outer[..|outer| - 1] == WithValidates(chain, ps');
      assert outer[|outer| - 1] == Validate(ps[last]);
      var inner := Chat(chain, backend, req, calls);
      if inner.result.Ok? {
        ConjoinStep(ps, inner.result.value, Chat(WithValidates(chain, ps'), backend, req, calls).result,
                    Chat(outer, backend, req, calls).result, inner.result);
      }
    }
  }

  /** The step of `ValidatesConjoin` that adds the outermost predicate
      `ps[|ps| - 1]`, on the results alone: `before` is the result below it,
      `after` the result above it. */
  lemma {:induction false} ConjoinStep(ps: seq<string -> Result<bool>>, t: string,
                                       before: Result<string>, after: Result<string>, reply: Result<string>)
    requires ps != [] && reply == Ok(t)
    requires var ps' := ps[..|ps| - 1];
             if forall i :: 0 <= i < |ps'| ==> ps'[i](t) == Ok(true)
             then before == reply
             else exists j :: 0 <= j < |ps'| && ps'[j](t) != Ok(true)
                              && (forall i :: 0 <= i < j ==> ps'[i](t) == Ok(true))
                              && before == Err(Rejection(ps'[j](t)))
    requires after == if before.Err? || ps[|ps| - 1](before.value) == Ok(true) then before
                      else Err(Rejection(ps[|ps| - 1](before.value)))
    ensures if forall i :: 0 <= i < |ps| ==> ps[i](t) == Ok(true)
            then after == reply
            else exists j :: 0 <= j < |ps| && ps[j](t) != Ok(true)
                             && (forall i :: 0 <= i < j ==> ps[i](t) == Ok(true))
                             && after == Err(Rejection(ps[j](t)))
  {
    var ps' := ps[..|ps| - 1];
    var last := |ps| - 1;
    assert forall i :: 0 <= i < last ==> ps'[i] == ps[i];
    if forall i :: 0 <= i < |ps'| ==> ps'[i](t) == Ok(true) {
      if ps[last](t) != Ok(true) {
        assert after == Err(Rejection(ps[last](t)));
      }
    } else {
      var j :| 0 <= j < |ps'| && ps'[j](t) != Ok(true)
               && (forall i :: 0 <= i < j ==> ps'[i](t) == Ok(true))
               && before == Err(Rejection(ps'[j](t)));
      assert ps[j] == ps'[j];
    }
  }

  // ---------------------------------------------------------------------
  // Retry

  /** A retry never lets the inner exception through: when all attempts
      raise, the caller sees `LLMResultError`. */
  lemma {:induction false} AttemptsFailWithResultError(inner: seq<Stage>, backend: Backend, req: Request,
                                                       calls: nat, attempt: nat, n: nat)
    requires 1 <= attempt
    ensures Attempts(inner, backend, req, calls, attempt, n).result.Err? ==>
              Attempts(inner, backend, req, calls, attempt, n).result == Err(ResultError)
    decreases if attempt < n then n - attempt else 0
  {
    var run := Attempt(inner, backend, req, calls);
    if !run.result.Ok? && attempt < n {
      AttemptsFailWithResultError(inner, backend, req, calls + |run.sent|, attempt + 1, n);
    }
  }

  lemma {:induction false} RetryNeverLeaksCause(inner: seq<Stage>, n: nat, backend: Backend, req: Request, calls: nat)
    ensures Chat(inner + [Retry(n)], backend, req, calls).result.Err? ==>
              Chat(inner + [Retry(n)], backend, req, calls).result == Err(ResultError)
  {
    assert (inner + [Retry(n)])[..|inner|] == inner;
    AttemptsFailWithResultError(inner, backend, req, calls, 1, n);
  }

  /** An inner chain of validate stages only: each attempt through it makes
      exactly one backend call. */
  predicate OnlyValidates(chain: seq<Stage>) {
    forall i :: 0 <= i < |chain| ==> chain[i].Validate?
  }

  lemma {:induction false} OneCallEach(chain: seq<Stage>, backend: Backend, req: Request, calls: nat)
    requires OnlyValidates(chain)
    ensures Chat(chain, backend, req, calls).sent == [req]
    decreases |chain|
  {
    if chain != [] {
      var inner := chain[..|chain| - 1];
      assert OnlyValidates(inner) by {
        forall i | 0 <= i < |inner| ensures inner[i].Validate? {
          assert inner[i] == chain[i];
        }
      }
      OneCallEach(inner, backend, req, calls);
    }
  }

  /** `req` with `streaming=False` added, as a retry forwards it. */
  function Unstreamed(req: Request): Request {
    req.(kwargs := req.kwargs["streaming" := Flag(false)])
  }

  /** The outcome of an attempt over a chain of validate stages that sees
      backend call number `c`. */
  function Outcome(inner: seq<Stage>, backend: Backend, req: Request, c: nat): Result<string> {
    Chat(inner, backend, Unstreamed(req), c).result
  }

  /** `run`, made of attempts over a chain of validate stages starting at
      backend call number `calls`, with at most `last` attempts allowed: it
      sent the forwarded request once per attempt until the first success;
      it succeeded, with that attempt's reply, exactly when some allowed
      attempt succeeds; otherwise every attempt was made and the result is
      `LLMResultError`. */
  ghost predicate FirstSuccess(run: Run, inner: seq<Stage>, backend: Backend, req: Request, calls: nat, last: nat) {
    && 1 <= |run.sent| <= last
    && (forall r :: r in run.sent ==> r == Unstreamed(req))
    && (run.result.Ok? <==>
          exists c :: calls <= c < calls + last && Outcome(inner, backend, req, c).Ok?)
    && (run.result.Ok? ==>
          run.result == Outcome(inner, backend, req, calls + |run.sent| - 1)
          && forall c :: calls <= c < calls + |run.sent| - 1 ==> Outcome(inner, backend, req, c).Err?)
    && (run.result.Err? ==> run.result == Err(ResultError) && |run.sent| == last)
  }

  /** Attempts `attempt`..`n` over a chain of validate stages meet
      `FirstSuccess`, with `n - attempt + 1` attempts allowed (at least one). */
  lemma {:induction false} AttemptsFirstSuccess(inner: seq<Stage>, backend: Backend, req: Request,
                                                calls: nat, attempt: nat, n: nat)
    requires 1 <= attempt && OnlyValidates(inner) && "streaming" !in req.kwargs
    ensures FirstSuccess(Attempts(inner, backend, req, calls, attempt, n), inner, backend, req, calls,
                         if attempt < n then n - attempt + 1 else 1)
    decreases if attempt < n then n - attempt else 0
  {
    var run := Attempts(inner, backend, req, calls, attempt, n);
    var last := if attempt < n then n - attempt + 1 else 1;
    var one := Attempt(inner, backend, req, calls);
    OneCallEach(inner, backend, Unstreamed(req), calls);
    assert one == Chat(inner, backend, Unstreamed(req), calls);
    assert one.sent == [Unstreamed(req)];
    assert one.result == Outcome(inner, backend, req, calls);
    if one.result.Ok? {
      assert run == one;
    } else if attempt >= n {
      assert run == Run(Err(ResultError), one.sent);
    } else {
      AttemptsFirstSuccess(inner, backend, req, calls + 1, attempt + 1, n);
      var rest := Attempts(inner, backend, req, calls + 1, attempt + 1, n);
      assert run == After([Unstreamed(req)], rest);
      FailedAttemptFirst(inner, backend, req, calls, last, run, rest);
    }
  }

  /** The step of `AttemptsFirstSuccess` past a failed first attempt, on the
      runs alone. */
  lemma {:induction false} FailedAttemptFirst(inner: seq<Stage>, backend: Backend, req: Request, calls: nat,
                                              last: nat, run: Run, rest: Run)
    requires 2 <= last && Outcome(inner, backend, req, calls).Err?
    requires run == After([Unstreamed(req)], rest)
    requires FirstSuccess(rest, inner, backend, req, calls + 1, last - 1)
    ensures FirstSuccess(run, inner, backend, req, calls, last)
  {
    if run.result.Ok? {
      var c :| calls + 1 <= c < calls + 1 + (last - 1) && Outcome(inner, backend, req, c).Ok?;
      assert calls <= c < calls + last;
    } else {
      forall c | calls <= c < calls + last
        ensures !Outcome(inner, backend, req, c).Ok?
      {
        if c > calls {
          assert calls + 1 <= c < calls + 1 + (last - 1);
        }
      }
    }
  }

  /** A retry with `stop_after_attempt(n)` over a chain of validate stages
      (possibly none) sends the request with `streaming=False` once per
      attempt, at most `max(n, 1)` times; it succeeds with the first
      successful attempt's reply exactly when one of the first `max(n, 1)`
      attempts succeeds, and otherwise raises `LLMResultError` after making
      all of them. */
  lemma {:induction false} RetryFirstSuccess(inner: seq<Stage>, n: nat, backend: Backend, req: Request, calls: nat)
    requires OnlyValidates(inner) && "streaming" !in req.kwargs
    ensures var run := Chat(inner + [Retry(n)], backend, req, calls);
            var last := if n < 1 then 1 else n;
            && 1 <= |run.sent| <= last
            && (forall r :: r in run.sent ==> r == Unstreamed(req))
            && (run.result.Ok? <==>
                  exists c :: calls <= c < calls + last && Outcome(inner, backend, req, c).Ok?)
            && (run.result.Ok? ==>
                  run.result == Outcome(inner, backend, req, calls + |run.sent| - 1)
                  && forall c :: calls <= c < calls + |run.sent| - 1 ==> Outcome(inner, backend, req, c).Err?)
            && (run.result.Err? ==> run.result == Err(ResultError) && |run.sent| == last)
  {
    assert (inner + [Retry(n)])[..|inner|] == inner;
    AttemptsFirstSuccess(inner, backend, req, calls, 1, n);
  }

  /** Validate inside retry: a predicate failure, `False` or an exception,
      is re-attempted, so the call succeeds exactly when the predicate
      answers `True` for one of the first `max(n, 1)` backend replies. */
  lemma {:induction false} ValidateInsideRetry(p: string -> Result<bool>, n: nat, backend: Backend, req: Request, calls: nat)
    requires "streaming" !in req.kwargs
    ensures var last := if n < 1 then 1 else n;
            Chat([Validate(p), Retry(n)], backend, req, calls).result.Ok? <==>
              exists c :: calls <= c < calls + last && Accepted(p, backend(Unstreamed(req), c))
  {
    var last := if n < 1 then 1 else n;
    assert [Validate(p), Retry(n)] == [Validate(p)] + [Retry(n)];
    assert OnlyValidates([Validate(p)]);
    RetryFirstSuccess([Validate(p)], n, backend, req, calls);
    forall c: nat
      ensures Outcome([Validate(p)], backend, req, c).Ok? == Accepted(p, backend(Unstreamed(req), c))
    {
      assert [Validate(p)][..0] == [];
      var fwd := Unstreamed(req);
      assert Chat([], backend, fwd, c) == Run(backend(fwd, c), [fwd]);
    }
  }

  /** `reply` is a reply for which `p` answers `True`. */
  predicate Accepted(p: string -> Result<bool>, reply: Result<string>) {
    reply.Ok? && p(reply.value) == Ok(true)
  }

  /** Retry inside validate: the validation sees only the first reply the
      retry accepts; a predicate failure is raised at once, with no further
      backend call: `LLMResultError` for `False`, or the predicate's own
      exception. In terms of the backend's replies to the forwarded request,
      the call succeeds exactly when the first reply that does not raise,
      among the first `max(n, 1)`, is one the predicate answers `True` for;
      and when the first reply is a rejected one, that rejection is the
      result after that single call. */
  lemma {:induction false} RetryInsideValidate(p: string -> Result<bool>, n: nat, backend: Backend, req: Request, calls: nat)
    ensures var retried := Chat([Retry(n)], backend, req, calls);
            var run := Chat([Retry(n), Validate(p)], backend, req, calls);
            && run.sent == retried.sent
            && (run.result.Ok? <==> Accepted(p, retried.result))
            && (retried.result.Ok? && p(retried.result.value) == Ok(false) ==> run.result == Err(ResultError))
            && (retried.result.Ok? && p(retried.result.value).Err? ==>
                  run.result == Err(p(retried.result.value).error))
    ensures "streaming" !in req.kwargs ==>
              var last := if n < 1 then 1 else n;
              var run := Chat([Retry(n), Validate(p)], backend, req, calls);
              var fwd := Unstreamed(req);
              && (run.result.Ok? <==>
                    exists c :: calls <= c < calls + last && FirstReply(backend, fwd, calls, c)
                                && Accepted(p, backend(fwd, c)))
              && (backend(fwd, calls).Ok? && !Accepted(p, backend(fwd, calls)) ==>
                    run == Run(Err(Rejection(p(backend(fwd, calls).value))), [fwd]))
  {
    assert [Retry(n), Validate(p)][..1] == [Retry(n)];
    if "streaming" !in req.kwargs {
      var last := if n < 1 then 1 else n;
      var fwd := Unstreamed(req);
      var retried := Chat([Retry(n)], backend, req, calls);
      assert [] + [Retry(n)] == [Retry(n)];
      RetryFirstSuccess([], n, backend, req, calls);
      forall c: nat
        ensures Outcome([], backend, req, c) == backend(fwd, c)
      {
        assert Chat([], backend, fwd, c) == Run(backend(fwd, c), [fwd]);
      }
      if retried.result.Ok? {
        var k := calls + |retried.sent| - 1;
        assert FirstReply(backend, fwd, calls, k);
        forall c | calls <= c < calls + last && FirstReply(backend, fwd, calls, c)
          ensures c == k
        {
        }
        if backend(fwd, calls).Ok? {
          assert k == calls;
          assert retried.sent == [fwd];
        }
      }
    }
  }

  /** Backend call `c` is the first, from call `calls` on, whose reply to
      `fwd` does not raise. */
  predicate FirstReply(backend: Backend, fwd: Request, calls: nat, c: nat) {
    backend(fwd, c).Ok? && forall d :: calls <= d < c ==> backend(fwd, d).Err?
  }

  /** The order of the two stages matters: a backend that gives the wanted
      reply only on its third call passes the check when validation is
      retried, and fails it when the retry sits below the validation. */
  lemma {:induction false} OrderMatters()
    ensures var backend: Backend := (q: Request, i: nat) => Ok(if i == 2 then "yes" else "no");
            var p := (t: string) => Ok(t == "yes");
            var req := Request("###", map[]);
            && Chat([Validate(p), Retry(5)], backend, req, 0)
               == Run(Ok("yes"), [Unstreamed(req), Unstreamed(req), Unstreamed(req)])
            && Chat([Retry(5), Validate(p)], backend, req, 0) == Run(Err(ResultError), [Unstreamed(req)])
  {
    var backend: Backend := (q: Request, i: nat) => Ok(if i == 2 then "yes" else "no");
    var p := (t: string) => Ok(t == "yes");
    var req := Request("###", map[]);
    var fwd := Unstreamed(req);
    var inner := [Validate(p)];
    assert inner[..0] == [];
    assert [Validate(p), Retry(5)][..1] == inner;
    assert Chat([], backend, fwd, 0) == Run(Ok("no"), [fwd]);
    assert Chat([], backend, fwd, 1) == Run(Ok("no"), [fwd]);
    assert Chat([], backend, fwd, 2) == Run(Ok("yes"), [fwd]);
    assert Attempt(inner, backend, req, 0) == Run(Err(ResultError), [fwd]);
    assert Attempt(inner, backend, req, 1) == Run(Err(ResultError), [fwd]);
    assert Attempt(inner, backend, req, 2) == Run(Ok("yes"), [fwd]);
    assert Attempts(inner, backend, req, 2, 3, 5) == Run(Ok("yes"), [fwd]);
    assert Attempts(inner, backend, req, 1, 2, 5) == Run(Ok("yes"), [fwd, fwd]);
    assert Attempts(inner, backend, req, 0, 1, 5) == Run(Ok("yes"), [fwd, fwd, fwd]);
    assert [Retry(5), Validate(p)][..1] == [Retry(5)];
    assert [Retry(5)][..0] == [];
    assert Attempt([], backend, req, 0) == Run(Ok("no"), [fwd]);
    assert Chat([Retry(5)], backend, req, 0) == Run(Ok("no"), [fwd]);
  }

  /** A retry stacked on a retry never reaches the backend: every inner
      attempt passes `streaming` a second time, which Python rejects, so the
      inner retry gives up with `LLMResultError`, and so does the outer. */
  lemma {:induction false} NestedRetryNeverCalls(inner: seq<Stage>, m: nat, n: nat, backend: Backend, req: Request, calls: nat)
    ensures Chat(inner + [Retry(m), Retry(n)], backend, req, calls) == Run(Err(ResultError), [])
  {
    var chain := inner + [Retry(m), Retry(n)];
    assert chain[..|chain| - 1] == inner + [Retry(m)];
    assert (inner + [Retry(m)])[..|inner|] == inner;
    NestedAttempts(inner, m, backend, req, calls, 1, n);
  }

  lemma {:induction false} NestedAttempts(inner: seq<Stage>, m: nat, backend: Backend, req: Request,
                                          calls: nat, attempt: nat, n: nat)
    requires 1 <= attempt
    ensures Attempts(inner + [Retry(m)], backend, req, calls, attempt, n) == Run(Err(ResultError), [])
    decreases if attempt < n then n - attempt else 0
  {
    var outer := inner + [Retry(m)];
    assert outer[..|inner|] == inner;
    if "streaming" !in req.kwargs {
      var fwd := Unstreamed(req);
      NeverAttempts(inner, backend, fwd, calls, 1, m);
      assert Chat(outer, backend, fwd, calls) == Run(Err(ResultError), []);
    }
    assert Attempt(outer, backend, req, calls).sent == [];
    assert Attempt(outer, backend, req, calls).result.Err?;
    if attempt < n {
      NestedAttempts(inner, m, backend, req, calls, attempt + 1, n);
    }
  }

  lemma {:induction false} NeverAttempts(inner: seq<Stage>, backend: Backend, req: Request,
                                         calls: nat, attempt: nat, m: nat)
    requires 1 <= attempt && "streaming" in req.kwargs
    ensures Attempts(inner, backend, req, calls, attempt, m) == Run(Err(ResultError), [])
    decreases if attempt < m then m - attempt else 0
  {
    if attempt < m {
      NeverAttempts(inner, backend, req, calls, attempt + 1, m);
    }
  }

  /** Two model stages cannot be stacked: the outer one passes `model=` and
      the inner one passes it a second time. */
  lemma {:induction false} NestedModelFails(inner: seq<Stage>, a: string, b: string, backend: Backend, req: Request, calls: nat)
    ensures Chat(inner + [Model(a), Model(b)], backend, req, calls) == Run(Err(DuplicateKeyword("model")), [])
  {
    var chain := inner + [Model(a), Model(b)];
    assert chain[..|chain| - 1] == inner + [Model(a)];
    assert (inner + [Model(a)])[..|inner|] == inner;
  }
}
