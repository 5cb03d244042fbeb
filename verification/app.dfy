/** The HTTP service: validation of the `/generate` body, the `/generate`,
    `/health` and `/logs` handlers, and the state they share, namely the log
    file and the process-wide inference engine.

    Clock readings and their renderings (the time taken, the ISO timestamp of
    the response, the timestamp of the log line, `str(temperature)` and the
    time taken to two decimals) enter as a Stamps value. */
module App {
  import opened Wrappers
  import opened Http
  import opened Inference
  import opened GenerationLog

  const DefaultTemperature: real := 0.7
  const DefaultMaxNewTokens := 200
  const MinPromptLength := 1
  const MaxPromptLength := 1000
  const MinNewTokens := 10
  const MaxNewTokens := 500
  const GenerationFailedPrefix := "Generation failed: "
  const UnhealthyPrefix := "Service unhealthy: "

  /** The JSON body as sent: any field may be missing. */
  datatype RawRequest = RawRequest(prompt: Option<string>, temperature: Option<real>, maxNewTokens: Option<int>)

  /** A body that passed validation, defaults filled in. */
  datatype GenerateRequest = GenerateRequest(prompt: string, temperature: real, maxNewTokens: int)

  predicate InBounds(req: GenerateRequest) {
    && MinPromptLength <= |req.prompt| <= MaxPromptLength
    && 0.0 <= req.temperature <= 1.0
    && MinNewTokens <= req.maxNewTokens <= MaxNewTokens
  }

  // The three field constraints; an omitted temperature or token limit takes
  // its default, which lies within bounds, while the prompt is required.
  predicate PromptAccepted(raw: RawRequest) {
    raw.prompt.Some? && MinPromptLength <= |raw.prompt.value| <= MaxPromptLength
  }

  predicate TemperatureAccepted(raw: RawRequest) {
    raw.temperature.None? || 0.0 <= raw.temperature.value <= 1.0
  }

  predicate MaxNewTokensAccepted(raw: RawRequest) {
    raw.maxNewTokens.None? || MinNewTokens <= raw.maxNewTokens.value <= MaxNewTokens
  }

  /** `GenerateRequest` validation: the request with its defaults when every
      field is acceptable, otherwise the names of the rejected fields in
      declaration order, each named once. */
  function ValidateRequest(raw: RawRequest): (r: Result<GenerateRequest, seq<string>>)
    ensures r.Success? <==> PromptAccepted(raw) && TemperatureAccepted(raw) && MaxNewTokensAccepted(raw)
    ensures r.Success? ==>
      && InBounds(r.value)
      && r.value.prompt == raw.prompt.value
      && r.value.temperature == raw.temperature.GetOr(DefaultTemperature)
      && r.value.maxNewTokens == raw.maxNewTokens.GetOr(DefaultMaxNewTokens)
    ensures r.Failure? ==>
      && 1 <= |r.error| <= 3
      && ("prompt" in r.error <==> !PromptAccepted(raw))
      && ("temperature" in r.error <==> !TemperatureAccepted(raw))
      && ("max_new_tokens" in r.error <==> !MaxNewTokensAccepted(raw))
  {
    var errors :=
      (if PromptAccepted(raw) then [] else ["prompt"])
      + (if TemperatureAccepted(raw) then [] else ["temperature"])
      + (if MaxNewTokensAccepted(raw) then [] else ["max_new_tokens"]);
    if errors == [] then
      Success(GenerateRequest(raw.prompt.value, raw.temperature.GetOr(DefaultTemperature), raw.maxNewTokens.GetOr(DefaultMaxNewTokens)))
    else
      Failure(errors)
  }

  /** Sending every field of an in-bounds request gives that request back. */
  lemma ValidateAcceptsInBounds(req: GenerateRequest)
    requires InBounds(req)
    ensures ValidateRequest(RawRequest(Some(req.prompt), Some(req.temperature), Some(req.maxNewTokens))) == Success(req)
  {
  }

  /** Validation is idempotent: resending an accepted request with its defaults
      spelled out is accepted as the same request. */
  lemma ValidationIsIdempotent(raw: RawRequest)
    requires ValidateRequest(raw).Success?
    ensures ValidateRequest(RawRequest(Some(ValidateRequest(raw).value.prompt),
                                       Some(ValidateRequest(raw).value.temperature),
                                       Some(ValidateRequest(raw).value.maxNewTokens))) == ValidateRequest(raw)
  {
    ValidateAcceptsInBounds(ValidateRequest(raw).value);
  }

  /** The response body of `/generate`. */
  datatype GenerateResponse = GenerateResponse(output: string, timeTaken: real, prompt: string, temperature: real, timestamp: string)

  /** The response body of `/health`. */
  datatype HealthResponse = HealthResponse(status: string, modelInfo: ModelInfo, timestamp: string)

  /** Clock readings of one request and their text forms. */
  datatype Stamps = Stamps(
    timeTaken: real,
    timestamp: string,
    logTimestamp: string,
    temperatureText: string,
    timeTakenText: string)

  /** The service: its log file and its engine slot. */
  class Server {
    const log: LogFile
    const registry: EngineRegistry

    ghost predicate Valid()
      reads this, log, registry, registry.engine
    {
      log.Valid() && registry.Valid()
    }

    /** Start-up: the log file as found, and no engine yet. */
    constructor (initialLog: Option<string>)
      ensures Valid()
      ensures log.present == initialLog.Some? && log.content == initialLog.GetOr([])
      ensures registry.engine == null
    {
      log := new LogFile(initialLog);
      registry := new EngineRegistry();
    }

    /** `POST /generate`. An invalid body is refused with 422 before anything
        runs. Otherwise the text is generated; if the engine cannot be created
        the answer is a 500 and nothing is logged. On success one entry is
        appended to the log, and the response echoes the prompt and the
        effective temperature. */
    method Generate(raw: RawRequest, env: LoadEnvironment, library: Library, stamps: Stamps, write: WriteOutcome)
      returns (r: Response<GenerateResponse>)
      requires Valid()
      modifies log, registry
      ensures Valid()
      ensures ValidateRequest(raw).Failure? ==>
        r == Unprocessable(ValidateRequest(raw).error) && unchanged(log, registry)
      ensures ValidateRequest(raw).Success? ==> r.StatusCode() == 200 || r.StatusCode() == 500
      ensures ValidateRequest(raw).Success? ==>
        (r.ServerError? <==> old(registry.engine) == null && !env.Loads())
      ensures r.ServerError? ==>
        r.detail == GenerationFailedPrefix + env.LoadError() && unchanged(log) && registry.engine == null
      ensures r.Ok? ==>
        var req := ValidateRequest(raw).value;
        && registry.engine != null
        && (old(registry.engine) != null ==> registry.engine == old(registry.engine))
        && var output := GenerationOutput(req.prompt, req.temperature, req.maxNewTokens, registry.engine.tokenizer.eosTokenId, library);
        && r.body == GenerateResponse(output, stamps.timeTaken, req.prompt, req.temperature, stamps.timestamp)
        && log.present == (old(log.present) || !write.OpenFailed?)
        && log.content == old(log.content)
             + Persisted(LogEntry(stamps.logTimestamp, req.prompt, stamps.temperatureText, stamps.timeTakenText, output), write)
    {
      var validated := ValidateRequest(raw);
      if validated.Failure? {
        return Unprocessable(validated.error);
      }
      var req := validated.value;
      var generated := registry.GenerateText(req.prompt, req.temperature, req.maxNewTokens, env, library);
      if generated.Failure? {
        return ServerError(GenerationFailedPrefix + generated.error);
      }
      var output := generated.value;
      log.LogGeneration(stamps.logTimestamp, req.prompt, stamps.temperatureText, stamps.timeTakenText, output, write);
      r := Ok(GenerateResponse(output, stamps.timeTaken, req.prompt, req.temperature, stamps.timestamp));
    }

    /** `GET /health`: healthy exactly when an engine exists or can be created,
        and then its model is always reported as loaded. */
    method HealthCheck(env: LoadEnvironment, cudaMemory: Option<nat>, timestamp: string)
      returns (r: Response<HealthResponse>)
      requires Valid()
      modifies registry
      ensures Valid()
      ensures r.StatusCode() == 200 || r.StatusCode() == 500
      ensures r.ServerError? <==> old(registry.engine) == null && !env.Loads()
      ensures r.ServerError? ==> r.detail == UnhealthyPrefix + env.LoadError() && registry.engine == null
      ensures old(registry.engine) != null ==> registry.engine == old(registry.engine)
      ensures r.Ok? ==>
        && registry.engine != null
        && r.body.status == "healthy" && r.body.timestamp == timestamp
        && r.body.modelInfo.Loaded? && r.body.modelInfo.Status() == "loaded"
        && r.body.modelInfo == registry.engine.ModelInfo(cudaMemory)
    {
      var lookup := registry.GetInferenceEngine(env);
      if lookup.Failure? {
        return ServerError(UnhealthyPrefix + lookup.error);
      }
      var info := lookup.value.ModelInfo(cudaMemory);
      r := Ok(HealthResponse("healthy", info, timestamp));
    }

    /** `GET /logs`; `lines` defaults to 50, so without it at most the fifty
        most recent lines are shown. */
    function Logs(lines: Option<int>, readFailure: Option<string>): (r: Response<LogsBody>)
      reads this, log
      ensures !log.present ==> r == Ok(NoLogs([], NoLogsMessage))
      ensures lines.None? && r.Ok? && r.body.Recent? ==>
        r.body.showing == Min(DefaultTailLength, r.body.totalEntries)
    {
      log.GetLogs(lines.GetOr(DefaultTailLength), readFailure)
    }
  }
}
