/** `WebsiteChatbot`: a session that scrapes a site once, chunks the pages,
    and answers questions by retrieving context and asking the generation
    layer with a fixed prompt. */
module Chatbot {
  import opened Text
  import opened Scraper
  import opened Chunking
  import opened Ranking
  import opened Generation

  const NotReady: string := "Bot not ready"
  /** When retrieval finds nothing, this many leading chunks form the context. */
  const FallbackChunks: nat := 8

  const PromptIntro: string := "\nYou are the official AI assistant for "
  const PromptRules: string :=
    ".\n\nSTRICT RULES:\n- Answer ONLY using the website context below.\n- Do NOT guess.\n"
    + "- Do NOT use outside knowledge.\n- If answer not found, say:\n"
    + "  \"I couldn't find that information on our website.\"\n\nWEBSITE CONTEXT:\n"
  const PromptQuestion: string := "\n\nQUESTION:\n"
  const PromptAnswer: string := "\n\nANSWER:\n"

  /** The prompt `ask` sends for a company, a context and a question. */
  function Prompt(company: string, context: string, question: string): string
  {
    PromptIntro + company + PromptRules + context + PromptQuestion + question + PromptAnswer
  }

  /** Where the context starts inside the prompt. */
  function ContextStart(company: string): nat
  {
    |PromptIntro| + |company| + |PromptRules|
  }

  /** The prompt holds the company, the context and the question verbatim,
      each at its own place, and ends with the answer cue. */
  lemma PromptHolds(company: string, context: string, question: string)
    ensures var p := Prompt(company, context, question);
            var cs := ContextStart(company);
            OccursAt(company, p, |PromptIntro|)
            && OccursAt(context, p, cs)
            && OccursAt(question, p, cs + |context| + |PromptQuestion|)
            && p[|p| - |PromptAnswer|..] == PromptAnswer
  {
    var p := Prompt(company, context, question);
    var cs := ContextStart(company);
    var qs := cs + |context| + |PromptQuestion|;
    assert p[|PromptIntro|..|PromptIntro| + |company|] == company;
    assert p[cs..cs + |context|] == context;
    assert p[qs..qs + |question|] == question;
  }

  /** For a fixed company and context, different questions give different
      prompts, so they never share a cache entry. */
  lemma PromptDistinguishesQuestions(company: string, context: string, q1: string, q2: string)
    requires Prompt(company, context, q1) == Prompt(company, context, q2)
    ensures q1 == q2
  {
    var p := Prompt(company, context, q1);
    var qs := ContextStart(company) + |context| + |PromptQuestion|;
    assert |q1| == |q2|;
    PromptHolds(company, context, q1);
    PromptHolds(company, context, q2);
    assert q1 == p[qs..qs + |q1|];
  }

  /** The context `ask` uses: the retrieved one, or, when that is empty, the
      first chunks joined the same way. */
  function AskContext(chunks: seq<string>, question: string): string
  {
    var context := Retrieved(chunks, question);
    if context == [] then Join(chunks[..Min(FallbackChunks, |chunks|)], ContextSeparator) else context
  }

  /** With non-empty chunks: when some chunk scores, the context is the
      retrieved one and is not empty; when none does, it is the fallback. */
  lemma AskContextCases(chunks: seq<string>, question: string)
    requires forall c :: c in chunks ==> c != []
    ensures (exists c :: c in chunks && Score(question, c) > 0) ==>
              AskContext(chunks, question) == Retrieved(chunks, question) && AskContext(chunks, question) != []
    ensures (forall c :: c in chunks ==> Score(question, c) == 0) ==>
              AskContext(chunks, question) == Join(chunks[..Min(FallbackChunks, |chunks|)], ContextSeparator)
  {
    RetrievedEmpty(chunks, question);
  }

  /** With non-empty chunks, the context is empty exactly when there are no
      chunks at all. */
  lemma AskContextEmpty(chunks: seq<string>, question: string)
    requires forall c :: c in chunks ==> c != []
    ensures AskContext(chunks, question) == [] <==> chunks == []
  {
    RetrievedEmpty(chunks, question);
    var first := chunks[..Min(FallbackChunks, |chunks|)];
    JoinEmpty(first, ContextSeparator);
    if chunks != [] {
      assert first[0] == chunks[0] && chunks[0] in chunks;
    }
  }

  /** A session built from scraped pages sends an empty context only when no
      page was collected. */
  lemma SessionContextEmpty(base: string, fetch: string -> Option<string>, order: seq<nat>, question: string)
    requires IsPermutation(order, |Paths|)
    ensures var pages := CollectPages(base, fetch, order);
            AskContext(Chunks(pages), question) == [] <==> pages == []
  {
    var pages := CollectPages(base, fetch, order);
    CollectPagesNonEmpty(base, fetch, order);
    ChunksWithinPages(pages);
    AskContextEmpty(Chunks(pages), question);
    if pages != [] {
      PageOrder(pages, 0);
      assert pages[0] in pages;
      assert PageChunks(pages[0]) != [];
    }
  }

  /** What `ask(question)` returns and leaves in the cache, for a session that
      is `ready` or not, over `chunks`, with generation key `apiKey`. */
  function AskStep(ready: bool, company: string, chunks: seq<string>, apiKey: string,
                   cache: map<string, string>, question: string, reply: Reply): (o: Outcome)
    ensures !ready ==> o == Outcome(NotReady, cache, false)
    ensures ready ==> (o.called <==> apiKey != [] && Prompt(company, AskContext(chunks, question), question) !in cache)
  {
    if !ready then Outcome(NotReady, cache, false)
    else GenerateStep(apiKey, cache, Prompt(company, AskContext(chunks, question), question), reply)
  }

  /** Asking a ready session the same question twice asks the service at most
      once, unless the first attempt failed, and gives the same answer. */
  lemma AskRepeatIsFree(company: string, chunks: seq<string>, apiKey: string, cache: map<string, string>,
                        question: string, first: Reply, second: Reply)
    requires first.status == StatusOk
    ensures var o1 := AskStep(true, company, chunks, apiKey, cache, question, first);
            var o2 := AskStep(true, company, chunks, apiKey, o1.cache, question, second);
            !o2.called && o2.answer == o1.answer && o2.cache == o1.cache
  {
    RepeatIsFree(apiKey, cache, Prompt(company, AskContext(chunks, question), question), first, second);
  }

  class WebsiteChatbot {
    const company: string
    const url: string
    var pages: seq<string>
    var chunks: seq<string>
    const ai: LLM
    var ready: bool

    /** The corpus is always the chunking of the pages, and the generation
        cache holds only service answers. */
    ghost predicate Valid()
      reads this, ai
    {
      chunks == Chunks(pages) && ai.Valid()
    }

    /** `WebsiteChatbot(company, url)`; `rawKey` is the configured API key. */
    constructor(company: string, url: string, rawKey: string)
      ensures this.company == company && this.url == url
      ensures pages == [] && chunks == [] && !ready
      ensures fresh(ai) && ai.apiKey == Strip(rawKey) && ai.cache == map[] && ai.sent == []
      ensures Valid()
    {
      this.company := company;
      this.url := url;
      pages := [];
      chunks := [];
      ai := new LLM(rawKey);
      ready := false;
    }

    /** `initialize()`: scrape, chunk, and become ready, even when no page was
        collected; `fetch` and `order` stand for the network and the
        completion order of the fetches. */
    method Initialize(fetch: string -> Option<string>, order: seq<nat>)
      requires Valid()
      requires IsPermutation(order, |Paths|)
      modifies this
      ensures Valid() && ready
      ensures pages == CollectPages(url, fetch, order)
      ensures chunks == Chunks(pages)
      ensures unchanged(ai)
    {
      pages := ScrapeWebsite(url, fetch, order);
      CreateChunks();
      ready := true;
    }

    /** `create_chunks()`: the 600-character windows of every page, page by
        page. */
    method CreateChunks()
      modifies this
      ensures chunks == Chunks(pages)
      ensures pages == old(pages) && ready == old(ready)
    {
      var result: seq<string> := [];
      var p := 0;
      while p < |pages|
        invariant 0 <= p <= |pages|
        invariant result == Chunks(pages[..p])
        invariant unchanged(this)
      {
        var page := pages[p];
        ghost var before := result;
        var i := 0;
        while i < |page|
          invariant before + PageChunks(page) == result + PageChunks(page[Min(i, |page|)..])
          invariant unchanged(this)
        {
          var n := Min(ChunkSize, |page| - i);
          PageChunksFrom(page, i);
          result := result + [page[i..i + n]];
          i := i + ChunkSize;
        }
        assert page[Min(i, |page|)..] == [];
        ChunksSnoc(pages, p);
        p := p + 1;
      }
      assert pages[..p] == pages;
      chunks := result;
    }

    /** `retrieve(question)`: score every chunk, keep the positive ones, sort
        the pairs descending and join the best five. */
    method Retrieve(question: string) returns (context: string)
      ensures context == Retrieved(chunks, question)
    {
      var q := Lower(question);
      var words := Words(q);
      var scored: seq<ScoredChunk> := [];
      var k := 0;
      while k < |chunks|
        invariant 0 <= k <= |chunks|
        invariant scored == Scored(chunks[..k], question)
      {
        var chunk := chunks[k];
        var c := Lower(chunk);
        var score: nat := 0;
        if IsSubstring(q, c) {
          score := score + QuestionBonus;
        }
        var w := 0;
        while w < |words|
          invariant 0 <= w <= |words|
          invariant score == (if IsSubstring(q, c) then QuestionBonus else 0) + WordBonus * MatchCount(words[..w], c)
        {
          assert words[..w + 1][..w] == words[..w];
          if |words[w]| > MinWordLength && IsSubstring(words[w], c) {
            score := score + WordBonus;
          }
          w := w + 1;
        }
        assert words[..w] == words;
        assert chunks[..k + 1][..k] == chunks[..k];
        if score > 0 {
          scored := scored + [ScoredChunk(score, chunk)];
        }
        k := k + 1;
      }
      assert chunks[..k] == chunks;
      var sorted := SortDesc(scored);
      var best := sorted[..Min(TopK, |sorted|)];
      context := Join(Texts(best), ContextSeparator);
    }

    /** `ask(question)`; `reply` is what the service answers if asked. */
    method Ask(question: string, reply: Reply) returns (answer: string)
      requires Valid()
      modifies ai
      ensures Valid()
      ensures !ready ==> answer == NotReady && unchanged(ai)
      ensures var o := AskStep(ready, company, chunks, ai.apiKey, old(ai.cache), question, reply);
              answer == o.answer && ai.cache == o.cache
      ensures ready ==>
                var prompt := Prompt(company, AskContext(chunks, question), question);
                ai.sent == old(ai.sent) + (if GenerateStep(ai.apiKey, old(ai.cache), prompt, reply).called
                                           then [Call(prompt, reply)] else [])
    {
      if !ready {
        return NotReady;
      }
      var context := Retrieve(question);
      if context == [] {
        context := Join(chunks[..Min(FallbackChunks, |chunks|)], ContextSeparator);
      }
      var prompt := Prompt(company, context, question);
      answer := ai.Generate(prompt, reply);
    }
  }
}
