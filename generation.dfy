/** The memoising generation layer of `LLM.generate`: a missing API key
    short-circuits, a cached prompt is answered from the cache, and otherwise
    the chat-completions service is asked once; only a status-200 answer is
    stored. The cache is keyed by the prompt itself, standing for its md5
    digest. */
module Generation {
  import opened Text

  const KeyMissing: string := "\U{26A0}\U{FE0F} API key not set"
  const AiError: string := "\U{26A0}\U{FE0F} AI error"
  const StatusOk: int := 200

  /** What the service answers when it is asked: the HTTP status and, on
      success, the content of the first choice's message. */
  datatype Reply = Reply(status: int, content: string)

  /** The result of one `generate` call: the returned string, the cache after
      the call, and whether the service was asked. */
  datatype Outcome = Outcome(answer: string, cache: map<string, string>, called: bool)

  /** One `generate(prompt)` call with API key `apiKey` against `cache`;
      `reply` is what the service answers if it is asked. */
  function GenerateStep(apiKey: string, cache: map<string, string>, prompt: string, reply: Reply): (o: Outcome)
    ensures o.called <==> apiKey != [] && prompt !in cache
    ensures !o.called ==> o.cache == cache
    ensures o.called ==> (o.cache == cache <==> reply.status != StatusOk)
    ensures forall p :: p in cache ==> p in o.cache && o.cache[p] == cache[p]
    ensures forall p :: p in o.cache && p !in cache ==> p == prompt && o.cache[p] == reply.content
    ensures apiKey == [] ==> o.answer == KeyMissing
    ensures apiKey != [] && prompt in o.cache ==> o.answer == o.cache[prompt]
    ensures o.called && reply.status != StatusOk ==> o.answer == AiError
  {
    if apiKey == [] then Outcome(KeyMissing, cache, false)
    else if prompt in cache then Outcome(cache[prompt], cache, false)
    else if reply.status != StatusOk then Outcome(AiError, cache, true)
    else Outcome(reply.content, cache[prompt := reply.content], true)
  }

  /** Without a key the sentinel is returned, the service is not asked and the
      cache is untouched, whatever the cache holds and the service would say. */
  lemma MissingKeyShortCircuits(cache: map<string, string>, prompt: string, reply: Reply)
    ensures GenerateStep([], cache, prompt, reply) == Outcome(KeyMissing, cache, false)
  {
  }

  /** A cached prompt is answered from the cache without asking the service. */
  lemma CacheHit(apiKey: string, cache: map<string, string>, prompt: string, reply: Reply)
    requires apiKey != [] && prompt in cache
    ensures GenerateStep(apiKey, cache, prompt, reply) == Outcome(cache[prompt], cache, false)
  {
  }

  /** After a call that succeeded or hit the cache, the same prompt again gets
      the same answer without asking the service, whatever it would say now. */
  lemma RepeatIsFree(apiKey: string, cache: map<string, string>, prompt: string, first: Reply, second: Reply)
    requires prompt in cache || first.status == StatusOk
    ensures var o1 := GenerateStep(apiKey, cache, prompt, first);
            var o2 := GenerateStep(apiKey, o1.cache, prompt, second);
            o2 == Outcome(o1.answer, o1.cache, false)
  {
  }

  /** A failed call stores nothing, so the same prompt again asks the service
      again and returns what that second answer gives. */
  lemma FailureIsRetried(apiKey: string, cache: map<string, string>, prompt: string, first: Reply, second: Reply)
    requires apiKey != [] && prompt !in cache && first.status != StatusOk
    ensures var o1 := GenerateStep(apiKey, cache, prompt, first);
            var o2 := GenerateStep(apiKey, o1.cache, prompt, second);
            o1 == Outcome(AiError, cache, true) && o2 == GenerateStep(apiKey, cache, prompt, second) && o2.called
  {
  }

  /** A call for one prompt leaves the cached answer of every other prompt as
      it was. */
  lemma OtherPromptsUntouched(apiKey: string, cache: map<string, string>, prompt: string, reply: Reply, other: string)
    requires other != prompt
    ensures var o := GenerateStep(apiKey, cache, prompt, reply);
            (other in o.cache <==> other in cache) && (other in cache ==> o.cache[other] == cache[other])
  {
  }

  /** A log entry: a prompt sent to the service and its reply. */
  datatype Call = Call(prompt: string, reply: Reply)

  /** `answer` is the content of a successful reply logged for `prompt`. */
  ghost predicate Served(log: seq<Call>, prompt: string, answer: string)
  {
    exists i :: 0 <= i < |log| && IsServedBy(log[i], prompt, answer)
  }

  predicate IsServedBy(c: Call, prompt: string, answer: string)
  {
    c.prompt == prompt && c.reply.status == StatusOk && c.reply.content == answer
  }

  /** `LLM`: the configured key and the cache `generate` updates. The ghost
      log records every call made to the service. */
  class LLM {
    const apiKey: string
    var cache: map<string, string>
    ghost var sent: seq<Call>

    /** Everything in the cache is a successful service answer to that very
        prompt. */
    ghost predicate Valid()
      reads this
    {
      forall p :: p in cache ==> Served(sent, p, cache[p])
    }

    /** `LLM()`, with the `OPENROUTER_API_KEY` setting read as `rawKey`
        (stripped, as at module load). */
    constructor(rawKey: string)
      ensures apiKey == Strip(rawKey)
      ensures cache == map[] && sent == []
      ensures Valid()
    {
      apiKey := Strip(rawKey);
      cache := map[];
      sent := [];
    }

    /** `generate(prompt)`; `reply` is what the service answers if asked. */
    method Generate(prompt: string, reply: Reply) returns (answer: string)
      requires Valid()
      modifies this
      ensures Valid()
      ensures var o := GenerateStep(apiKey, old(cache), prompt, reply);
              answer == o.answer && cache == o.cache
              && sent == old(sent) + (if o.called then [Call(prompt, reply)] else [])
    {
      if apiKey == [] {
        return KeyMissing;
      }
      if prompt in cache {
        return cache[prompt];
      }
      sent := sent + [Call(prompt, reply)];
      assert IsServedBy(sent[|sent| - 1], prompt, reply.content) <==> reply.status == StatusOk;
      forall p | p in cache ensures Served(sent, p, cache[p]) {
        var i :| 0 <= i < |old(sent)| && IsServedBy(old(sent)[i], p, cache[p]);
        assert sent[i] == old(sent)[i];
      }
      if reply.status != StatusOk {
        return AiError;
      }
      answer := reply.content;
      cache := cache[prompt := answer];
    }
  }
}
