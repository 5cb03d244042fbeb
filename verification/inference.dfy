/** The inference wrapper: the Llama-3 chat template, extraction of the
    assistant's reply from the decoded output, the generation settings, the
    engine object whose model and tokenizer are loaded after construction, and
    the process-wide engine created lazily on first use.

    Tokenisation, `model.generate` and `decode` are the inference library's;
    together they are the parameter `library`, a function from the formatted
    prompt and the settings to the decoded text or the message of the exception
    they raised. Loading (`from_pretrained`) likewise enters as its outcome. */
module Inference {
  import opened Wrappers
  import opened PyStr

  const DefaultModelName := "meta-llama/Meta-Llama-3-8B-Instruct"

  // The chat template: the user's turn, then the header that opens the assistant's turn.
  const BeginOfText := "<|begin_of_text|>"
  const StartHeader := "<|start_header_id|>"
  const EndHeader := "<|end_header_id|>"
  const EndOfTurn := "<|eot_id|>"
  const UserHeader := BeginOfText + StartHeader + "user" + EndHeader + "\n\n"
  const AssistantMarker := StartHeader + "assistant" + EndHeader
  const AssistantHeader := EndOfTurn + AssistantMarker + "\n\n"

  const NotLoadedMessage := "Model not loaded. Call _load_model() first."
  const GenerationErrorPrefix := "Error generating text: "

  /** The prompt wrapped in the fixed chat template. */
  function FormatPrompt(prompt: string): (f: string)
    ensures |f| == |UserHeader| + |prompt| + |AssistantHeader|
  {
    UserHeader + prompt + AssistantHeader
  }

  /** Recovers the user's prompt from a formatted prompt: the inverse of FormatPrompt. */
  function PromptOf(formatted: string): (p: Option<string>)
    ensures p.Some? ==> FormatPrompt(p.value) == formatted
  {
    var n := |formatted|;
    if n >= |UserHeader| + |AssistantHeader|
       && formatted[..|UserHeader|] == UserHeader
       && formatted[n - |AssistantHeader|..] == AssistantHeader
    then
      var p := formatted[|UserHeader|..n - |AssistantHeader|];
      assert formatted == formatted[..|UserHeader|] + p + formatted[n - |AssistantHeader|..];
      Some(p)
    else None
  }

  /** The prompt appears verbatim between the two halves of the template, and
      nothing about it is lost: the template is a bijection onto its image. */
  lemma PromptOfFormatPrompt(prompt: string)
    ensures PromptOf(FormatPrompt(prompt)) == Some(prompt)
  {
    var f := FormatPrompt(prompt);
    assert f[..|UserHeader|] == UserHeader;
    assert f[|f| - |AssistantHeader|..] == AssistantHeader;
    assert f[|UserHeader|..|f| - |AssistantHeader|] == prompt;
  }

  /** The marker's only other '<' opens its closing tag. */
  lemma MarkerOpeningAngles(d: int)
    requires 0 < d < |AssistantMarker| && d != 28
    ensures AssistantMarker[d] != '<'
  {
  }

  /** No proper suffix of the marker is also a prefix of it, so two of its
      occurrences never overlap. */
  lemma AssistantMarkerDoesNotOverlapItself()
    ensures NoSelfOverlap(AssistantMarker)
  {
    var m := AssistantMarker;
    forall d | 0 < d < |m|
      ensures m[d..] != m[..|m| - d]
    {
      if d == 28 {
        assert m[d..][2] == m[30] && m[..|m| - d][2] == m[2];
        assert m[30] == 'e' && m[2] == 's';
      } else {
        MarkerOpeningAngles(d);
        assert m[d..][0] == m[d] && m[..|m| - d][0] == m[0];
        assert m[0] == '<';
      }
    }
  }

  /** Every formatted prompt contains the assistant marker, whatever the prompt. */
  lemma FormattedPromptContainsMarker(prompt: string)
    ensures Contains(FormatPrompt(prompt), AssistantMarker)
  {
    var f := FormatPrompt(prompt);
    var i := |UserHeader| + |prompt| + |EndOfTurn|;
    assert f[i..i + |AssistantMarker|] == AssistantMarker;
    assert OccursAt(f, AssistantMarker, i);
  }

  /** The assistant's reply taken out of the decoded output: the stripped text
      after the last marker when there is one, otherwise the stripped text after
      as many characters as the formatted prompt has. The reply never contains
      the marker and has no whitespace at either end. */
  function ExtractReply(decoded: string, formatted: string): (reply: string)
    ensures !Contains(reply, AssistantMarker)
    ensures NoOuterSpace(reply)
    ensures !Contains(decoded, AssistantMarker) && |decoded| <= |formatted| ==> reply == []
  {
    if Contains(decoded, AssistantMarker) then
      var tail := Last(Split(decoded, AssistantMarker));
      SplitLastLacksSeparator(decoded, AssistantMarker);
      StripKeepsAbsence(tail, AssistantMarker);
      Strip(tail)
    else
      var rest := SliceFrom(decoded, |formatted|);
      InfixKeepsAbsence(decoded, |decoded| - |rest|, |decoded|, AssistantMarker);
      assert decoded[|decoded| - |rest|..|decoded|] == rest;
      StripKeepsAbsence(rest, AssistantMarker);
      Strip(rest)
  }

  lemma StripKeepsAbsence(s: string, m: string)
    requires !Contains(s, m)
    ensures !Contains(Strip(s), m)
  {
    var k := LeadingSpace(s);
    InfixKeepsAbsence(s, k, k + |Strip(s)|, m);
  }

  lemma LeadingNewlinesKeepAbsence(c: string)
    requires !Contains(c, AssistantMarker)
    ensures !Contains("\n\n" + c, AssistantMarker)
  {
    var m := AssistantMarker;
    var y := "\n\n" + c;
    forall j | 0 <= j <= |y| - |m|
      ensures !OccursAt(y, m, j)
    {
      if j < 2 {
        assert y[j..j + |m|][0] == y[j] == '\n';
        assert m[0] == '<';
      } else {
        assert y[j..j + |m|] == c[j - 2..j - 2 + |m|];
        assert !OccursAt(c, m, j - 2);
      }
    }
  }

  /** When the decoded output repeats the formatted prompt and then continues
      with text free of the marker, the reply is exactly that continuation,
      stripped, whatever the user's prompt contains. */
  lemma ReplyAfterEchoedPrompt(prompt: string, continuation: string)
    requires !Contains(continuation, AssistantMarker)
    ensures ExtractReply(FormatPrompt(prompt) + continuation, FormatPrompt(prompt)) == Strip(continuation)
  {
    var f := FormatPrompt(prompt);
    var decoded := f + continuation;
    var x := UserHeader + prompt + EndOfTurn;
    var y := "\n\n" + continuation;
    assert decoded == x + AssistantMarker + y;
    LeadingNewlinesKeepAbsence(continuation);
    AssistantMarkerDoesNotOverlapItself();
    SplitLastAfterFinal(x, AssistantMarker, y);
    FormattedPromptContainsMarker(prompt);
    assert Contains(decoded, AssistantMarker) by {
      var i := |x|;
      assert decoded[i..i + |AssistantMarker|] == AssistantMarker;
      assert OccursAt(decoded, AssistantMarker, i);
    }
    assert AllSpace("\n\n");
    StripIgnoresLeadingSpace("\n\n", continuation);
  }

  /** With a marker in the decoded output, the reply is the stripped text after
      its last occurrence, whatever comes before it. */
  lemma ReplyAfterFinalMarker(head: string, tail: string, formatted: string)
    requires !Contains(tail, AssistantMarker)
    ensures ExtractReply(head + AssistantMarker + tail, formatted) == Strip(tail)
  {
    var decoded := head + AssistantMarker + tail;
    AssistantMarkerDoesNotOverlapItself();
    SplitLastAfterFinal(head, AssistantMarker, tail);
    assert OccursAt(decoded, AssistantMarker, |head|) by {
      assert decoded[|head|..|head| + |AssistantMarker|] == AssistantMarker;
    }
  }

  /** Without a marker, the fallback drops exactly as many leading characters as
      the formatted prompt has and strips what follows. */
  lemma FallbackDropsPromptLength(head: string, rest: string, formatted: string)
    requires |head| == |formatted|
    requires !Contains(head + rest, AssistantMarker)
    ensures ExtractReply(head + rest, formatted) == Strip(rest)
  {
    assert SliceFrom(head + rest, |formatted|) == rest;
  }

  /** The formatted prompt as it reads once its special tokens (the `<|...|>`
      markers) are left out, as `decode(..., skip_special_tokens=True)` does. */
  function VisiblePrompt(prompt: string): (v: string)
    ensures |FormatPrompt(prompt)| == |v| + 99
  {
    "user" + "\n\n" + prompt + "assistant" + "\n\n"
  }

  /** When the decoded text echoes the prompt without its special tokens and the
      marker therefore never appears, the fallback cuts by the length of the
      formatted prompt, which is 99 characters longer than the echo: the first
      99 characters of the reply are lost, and a reply of at most 99 characters
      comes back empty. */
  lemma SkippedSpecialTokensCutReply(prompt: string, reply: string)
    requires !Contains(VisiblePrompt(prompt) + reply, AssistantMarker)
    ensures ExtractReply(VisiblePrompt(prompt) + reply, FormatPrompt(prompt)) == Strip(SliceFrom(reply, 99))
    ensures |reply| <= 99 ==> ExtractReply(VisiblePrompt(prompt) + reply, FormatPrompt(prompt)) == []
  {
    var v := VisiblePrompt(prompt);
    var decoded := v + reply;
    var f := FormatPrompt(prompt);
    var rest := SliceFrom(decoded, |f|);
    assert rest == SliceFrom(reply, 99) by {
      if |reply| >= 99 {
        assert decoded[|f|..] == reply[99..];
      }
    }
  }

  /** Generation settings handed to `model.generate`. */
  datatype GenerationConfig = GenerationConfig(
    maxNewTokens: int,
    temperature: real,
    doSample: bool,
    topP: real,
    repetitionPenalty: real,
    padTokenId: int,
    eosTokenId: int)

  /** The settings for one request: sampling is enabled exactly when the
      temperature is positive (greedy decoding otherwise), nucleus threshold 0.9,
      repetition penalty 1.1, and the end-of-sequence id doubles as the padding id. */
  function SamplingConfig(temperature: real, maxNewTokens: int, eosTokenId: int): (c: GenerationConfig)
    ensures c.doSample <==> temperature > 0.0
    ensures c.temperature == temperature && c.maxNewTokens == maxNewTokens
    ensures c.topP == 0.9 && c.repetitionPenalty == 1.1
    ensures c.padTokenId == eosTokenId && c.eosTokenId == eosTokenId
  {
    GenerationConfig(maxNewTokens, temperature, temperature > 0.0, 0.9, 1.1, eosTokenId, eosTokenId)
  }

  /** Tokenise, generate and decode, as one call into the inference library. */
  type Library = (string, GenerationConfig) -> Result<string, string>

  /** The in-band error text that replaces a failed generation. */
  function GenerationError(message: string): (text: string)
    ensures |text| == |GenerationErrorPrefix| + |message|
    ensures text[..|GenerationErrorPrefix|] == GenerationErrorPrefix
    ensures text[|GenerationErrorPrefix|..] == message
  {
    GenerationErrorPrefix + message
  }

  /** What a loaded engine's `generate_text` returns: the extracted reply, or
      the error text when the library raised. */
  function GenerationOutput(prompt: string, temperature: real, maxNewTokens: int, eosTokenId: int, library: Library): (out: string)
    ensures var result := library(FormatPrompt(prompt), SamplingConfig(temperature, maxNewTokens, eosTokenId));
      && (result.Success? ==> !Contains(out, AssistantMarker) && NoOuterSpace(out))
      && (result.Failure? ==> |out| >= |GenerationErrorPrefix| && out[..|GenerationErrorPrefix|] == GenerationErrorPrefix)
  {
    var formatted := FormatPrompt(prompt);
    match library(formatted, SamplingConfig(temperature, maxNewTokens, eosTokenId))
    case Success(decoded) => ExtractReply(decoded, formatted)
    case Failure(message) => GenerationError(message)
  }

  /** A caller cannot tell an in-band error from a genuine reply: any error
      text without the marker and without outer whitespace is also the reply
      to some decoded output. */
  lemma ErrorTextIsAPossibleReply(prompt: string, message: string)
    requires !Contains(GenerationError(message), AssistantMarker)
    requires NoOuterSpace(GenerationError(message))
    ensures var f := FormatPrompt(prompt);
      ExtractReply(f + GenerationError(message), f) == GenerationError(message)
  {
    var e := GenerationError(message);
    ReplyAfterEchoedPrompt(prompt, e);
    StripKeepsUnpadded(e);
  }

  /** `strip()` leaves a string without outer whitespace as it is. */
  lemma StripKeepsUnpadded(s: string)
    requires NoOuterSpace(s)
    ensures Strip(s) == s
  {
    assert LeadingSpace(s) == 0 && TrailingSpace(s) == 0;
    assert s[0..] == s;
  }

  /** What `AutoTokenizer.from_pretrained` yields: the tokens the code reads. */
  datatype PretrainedTokenizer = PretrainedTokenizer(padToken: Option<string>, eosToken: string, eosTokenId: int)

  /** A loaded model, reduced to what the service reports about it. */
  datatype ModelHandle = ModelHandle(parameterCount: nat)

  /** The tokenizer object; its padding token is set in place after loading. */
  class Tokenizer {
    var padToken: Option<string>
    const eosToken: string
    const eosTokenId: int

    constructor (loaded: PretrainedTokenizer)
      ensures padToken == loaded.padToken && eosToken == loaded.eosToken && eosTokenId == loaded.eosTokenId
    {
      padToken := loaded.padToken;
      eosToken := loaded.eosToken;
      eosTokenId := loaded.eosTokenId;
    }

    /** A tokenizer without a padding token pads with its end-of-sequence token;
        one that has a padding token keeps it. */
    method DefaultPadToken()
      modifies this
      ensures padToken.Some?
      ensures old(padToken).None? ==> padToken == Some(eosToken)
      ensures old(padToken).Some? ==> padToken == old(padToken)
    {
      if padToken.None? {
        padToken := Some(eosToken);
      }
    }
  }

  /** The status dictionary of `get_model_info`. */
  datatype ModelInfo =
    | NotLoaded
    | Loaded(modelName: string, device: string, parameters: nat, memoryUsage: nat)
  {
    function Status(): string {
      if NotLoaded? then "not_loaded" else "loaded"
    }
  }

  /** The inference engine: the model and tokenizer start out absent and are
      filled in by LoadModel. */
  class LlamaInference {
    const modelName: string
    const device: string
    var model: Option<ModelHandle>
    var tokenizer: Tokenizer?

    /** Both the model and the tokenizer are present. */
    predicate Ready()
      reads this
    {
      model.Some? && tokenizer != null
    }

    /** Picks the device; loading is the separate step LoadModel. */
    constructor (modelName: string, cudaAvailable: bool)
      ensures this.modelName == modelName
      ensures device == (if cudaAvailable then "cuda" else "cpu")
      ensures model.None? && tokenizer == null
    {
      this.modelName := modelName;
      device := if cudaAvailable then "cuda" else "cpu";
      model := None;
      tokenizer := null;
    }

    /** Loads the tokenizer, gives it the padding default, then loads the model.
        A loading failure is re-raised after whatever was loaded before it has
        been stored. */
    method LoadModel(tokenizerLoad: Result<PretrainedTokenizer, string>, modelLoad: Result<ModelHandle, string>)
      returns (o: Outcome<string>)
      modifies this
      ensures o.Pass? <==> tokenizerLoad.Success? && modelLoad.Success?
      ensures tokenizerLoad.Failure? ==>
        o == Fail(tokenizerLoad.error) && tokenizer == old(tokenizer) && model == old(model)
      ensures tokenizerLoad.Success? ==>
        && tokenizer != null && fresh(tokenizer)
        && tokenizer.eosToken == tokenizerLoad.value.eosToken
        && tokenizer.eosTokenId == tokenizerLoad.value.eosTokenId
        && tokenizer.padToken == Some(tokenizerLoad.value.padToken.GetOr(tokenizerLoad.value.eosToken))
        && model == (if modelLoad.Success? then Some(modelLoad.value) else old(model))
      ensures tokenizerLoad.Success? && modelLoad.Failure? ==> o == Fail(modelLoad.error)
    {
      if tokenizerLoad.Failure? {
        return Fail(tokenizerLoad.error);
      }
      var tok := new Tokenizer(tokenizerLoad.value);
      tokenizer := tok;
      tok.DefaultPadToken();
      if modelLoad.Failure? {
        return Fail(modelLoad.error);
      }
      model := Some(modelLoad.value);
      o := Pass;
    }

    /** `generate_text`: raises when the model or tokenizer is missing; otherwise
        returns the reply, or the error text when the library raised. */
    method GenerateText(prompt: string, temperature: real, maxNewTokens: int, library: Library)
      returns (r: Result<string, string>)
      ensures !Ready() ==> r == Failure(NotLoadedMessage)
      ensures Ready() ==> r == Success(GenerationOutput(prompt, temperature, maxNewTokens, tokenizer.eosTokenId, library))
    {
      if model.None? || tokenizer == null {
        return Failure(NotLoadedMessage);
      }
      var formatted := FormatPrompt(prompt);
      var config := SamplingConfig(temperature, maxNewTokens, tokenizer.eosTokenId);
      var response;
      match library(formatted, config) {
        case Failure(message) =>
          response := GenerationError(message);
        case Success(decoded) =>
          response := ExtractReply(decoded, formatted);
      }
      r := Success(response);
    }

    /** `get_model_info`: only the status when no model is set, otherwise the
        engine's name and device with the model's size and the CUDA memory in use
        (0 without CUDA). */
    function ModelInfo(cudaMemory: Option<nat>): (info: ModelInfo)
      reads this
      ensures info.NotLoaded? <==> model.None?
      ensures info.Status() == (if model.None? then "not_loaded" else "loaded")
      ensures info.Loaded? ==>
        && info.modelName == modelName && info.device == device
        && info.parameters == model.value.parameterCount
        && info.memoryUsage == cudaMemory.GetOr(0)
    {
      if model.None? then NotLoaded
      else Loaded(modelName, device, model.value.parameterCount, cudaMemory.GetOr(0))
    }
  }

  /** The outcome of loading at the moment an engine is first needed. */
  datatype LoadEnvironment = LoadEnvironment(
    cudaAvailable: bool,
    tokenizer: Result<PretrainedTokenizer, string>,
    model: Result<ModelHandle, string>)
  {
    predicate Loads() {
      tokenizer.Success? && model.Success?
    }

    function LoadError(): string
      requires !Loads()
    {
      if tokenizer.Failure? then tokenizer.error else model.error
    }
  }

  /** The module-global `inference_engine`: unset until the first successful
      construction, then the same engine for the rest of the process. */
  class EngineRegistry {
    var engine: LlamaInference?
    ghost var constructions: nat

    /** Only a fully loaded engine is ever stored. */
    ghost predicate Valid()
      reads this, engine
    {
      engine != null ==> engine.Ready()
    }

    constructor ()
      ensures Valid() && engine == null && constructions == 0
    {
      engine := null;
      constructions := 0;
    }

    /** `get_inference_engine`: constructs an engine only while none is stored;
        a construction that raises leaves the slot empty, so the next call tries
        again. */
    method GetInferenceEngine(env: LoadEnvironment) returns (r: Result<LlamaInference, string>)
      requires Valid()
      modifies this
      ensures Valid()
      ensures old(engine) != null ==>
        r == Success(old(engine)) && engine == old(engine) && constructions == old(constructions)
      ensures old(engine) == null ==> constructions == old(constructions) + 1
      ensures old(engine) == null && env.Loads() ==>
        && r.Success? && r.value == engine && fresh(engine)
        && engine.modelName == DefaultModelName
        && engine.device == (if env.cudaAvailable then "cuda" else "cpu")
        && engine.model == Some(env.model.value)
        && engine.tokenizer.eosTokenId == env.tokenizer.value.eosTokenId
        && engine.tokenizer.padToken == Some(env.tokenizer.value.padToken.GetOr(env.tokenizer.value.eosToken))
      ensures old(engine) == null && !env.Loads() ==>
        r == Failure(env.LoadError()) && engine == null
    {
      if engine == null {
        var e := new LlamaInference(DefaultModelName, env.cudaAvailable);
        constructions := constructions + 1;
        var o := e.LoadModel(env.tokenizer, env.model);
        if o.Fail? {
          return Failure(o.error);
        }
        engine := e;
      }
      r := Success(engine);
    }

    /** The module-level `generate_text`: look the engine up, then generate.
        The only failure left is the engine's construction raising. */
    method GenerateText(prompt: string, temperature: real, maxNewTokens: int, env: LoadEnvironment, library: Library)
      returns (r: Result<string, string>)
      requires Valid()
      modifies this
      ensures Valid()
      ensures old(engine) != null ==> engine == old(engine)
      ensures r.Failure? <==> old(engine) == null && !env.Loads()
      ensures r.Failure? ==> r.error == env.LoadError() && engine == null
      ensures r.Success? ==>
        engine != null && r.value == GenerationOutput(prompt, temperature, maxNewTokens, engine.tokenizer.eosTokenId, library)
    {
      var lookup := GetInferenceEngine(env);
      if lookup.Failure? {
        return Failure(lookup.error);
      }
      r := lookup.value.GenerateText(prompt, temperature, maxNewTokens, library);
    }
  }

  /** Two successive lookups hand out one and the same engine. */
  method LookupsShareEngine(registry: EngineRegistry, first: LoadEnvironment, second: LoadEnvironment)
    returns (a: Result<LlamaInference, string>, b: Result<LlamaInference, string>)
    requires registry.Valid()
    modifies registry
    ensures a.Success? ==> b == a
    ensures old(registry.engine) == null && a.Failure? ==> registry.constructions == old(registry.constructions) + 2
  {
    a := registry.GetInferenceEngine(first);
    b := registry.GetInferenceEngine(second);
  }
}
