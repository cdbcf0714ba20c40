/** The chat front end: it checks for an API key, wraps every question in a
    fixed syntopical-analysis instruction, hands it to a retrieval chain that
    sees the conversation so far, and returns the chain's answer and sources.
    The chain (retriever, language model, prompt internals) is an opaque
    function of the question and the conversation history. */
module Chat {
  import opened Wrappers
  import opened Strings
  import opened Storage

  // ---------------------------------------------------------------------------
  // Prompts
  // ---------------------------------------------------------------------------

  const QueryPreamble := "Perform a syntopical analysis across multiple academic papers to answer: "
  const QueryInstructions :=
    "\nConsider different perspectives, methodologies, and findings from all relevant papers. "
    + "Identify agreements, disagreements, and complementary insights between the papers. "
    + "Cite specific papers when referencing their content."

  /** `_enhance_query`: the preamble, the question as given, then the
      instructions. */
  function EnhanceQuery(query: string): (q: string)
    ensures |q| == |QueryPreamble| + |query| + |QueryInstructions|
    ensures StartsWith(q, QueryPreamble)
    ensures OccursAt(q, query, |QueryPreamble|)
    ensures q[|QueryPreamble| + |query|..] == QueryInstructions
  {
    var q := QueryPreamble + query + QueryInstructions;
    assert q[..|QueryPreamble|] == QueryPreamble;
    assert q[|QueryPreamble|..|QueryPreamble| + |query|] == query;
    q
  }

  /** The question an enhanced query wraps, if it is one. */
  function QueryOf(q: string): Option<string> {
    if |q| >= |QueryPreamble| + |QueryInstructions|
       && StartsWith(q, QueryPreamble)
       && q[|q| - |QueryInstructions|..] == QueryInstructions
    then Some(q[|QueryPreamble|..|q| - |QueryInstructions|])
    else None
  }

  /** The question can be read back from the enhanced query, so different
      questions are sent as different queries. */
  lemma EnhanceQueryReadsBack(query: string)
    ensures QueryOf(EnhanceQuery(query)) == Some(query)
  {
    var q := EnhanceQuery(query);
    assert |q| - |QueryInstructions| == |QueryPreamble| + |query|;
  }

  const TopicLead := "Perform a comprehensive syntopical analysis on the topic: "
  const TopicStructure :=
    "\n\n"
    + "Please structure your analysis as follows:\n"
    + "1. Overview of the topic and its significance\n"
    + "2. Key perspectives and approaches across the papers\n"
    + "3. Major agreements between the papers\n"
    + "4. Notable disagreements or contradictions\n"
    + "5. Gaps in the literature and potential future research directions\n"
    + "6. Synthesis of the most important insights\n\n"
    + "For each point, cite specific papers and explain how they contribute to the understanding of the topic."

  /** The structured prompt of `analyze_topic`: the lead, the topic between
      single quotes, then the requested structure. */
  function AnalysisPrompt(topic: string): (p: string)
    ensures |p| == |TopicLead| + |topic| + 2 + |TopicStructure|
    ensures StartsWith(p, TopicLead)
    ensures OccursAt(p, "'" + topic + "'", |TopicLead|)
    ensures p[|TopicLead| + |topic| + 2..] == TopicStructure
  {
    var quoted := "'" + topic + "'";
    var p := TopicLead + quoted + TopicStructure;
    assert p[..|TopicLead|] == TopicLead;
    assert p[|TopicLead|..|TopicLead| + |quoted|] == quoted;
    p
  }

  /** The topic an analysis prompt is about, if it is one. */
  function TopicOf(p: string): Option<string> {
    if |p| >= |TopicLead| + 2 + |TopicStructure|
       && StartsWith(p, TopicLead)
       && p[|TopicLead|] == '\''
       && p[|p| - |TopicStructure| - 1] == '\''
       && p[|p| - |TopicStructure|..] == TopicStructure
    then Some(p[|TopicLead| + 1..|p| - |TopicStructure| - 1])
    else None
  }

  /** The topic can be read back from the analysis prompt. */
  lemma AnalysisPromptReadsBack(topic: string)
    ensures TopicOf(AnalysisPrompt(topic)) == Some(topic)
  {
    var p := AnalysisPrompt(topic);
    var quoted := "'" + topic + "'";
    var i := |TopicLead|;
    assert |p| - |TopicStructure| - 1 == i + |topic| + 1;
    assert p[i..i + |quoted|] == quoted;
    assert p[i] == quoted[0] == '\'';
    assert p[i + |topic| + 1] == quoted[|topic| + 1] == '\'';
    assert p[i + 1..i + 1 + |topic|] == quoted[1..|topic| + 1] == topic;
  }

  // ---------------------------------------------------------------------------
  // The chain and the conversation
  // ---------------------------------------------------------------------------

  /** One exchange kept in the conversation memory: the question the chain
      was given and the answer it produced. */
  datatype Turn = Turn(question: string, answer: string)

  /** What the retrieval chain returns: the question and history it was
      given, its answer and the documents it retrieved. */
  datatype ChainResult = ChainResult(
    question: string,
    chatHistory: seq<Turn>,
    answer: string,
    sourceDocuments: seq<Document>)

  /** What `chat` returns: only the answer and the source documents. */
  datatype ChatResponse = ChatResponse(answer: string, sourceDocuments: seq<Document>)

  /** The language-model settings the chain is built with. */
  datatype LlmConfig = LlmConfig(modelName: string, maxTokens: int)

  const ApiKeyVariable := "OPENAI_API_KEY"
  const MissingKeyMessage :=
    "OPENAI_API_KEY environment variable is not set. Please set it to use the chat interface."

  /** The environment holds a non-empty API key. */
  predicate HasApiKey(env: map<string, string>) {
    ApiKeyVariable in env && env[ApiKeyVariable] != ""
  }

  /** The part of a chain result that `chat` hands back. */
  function Project(result: ChainResult): ChatResponse {
    ChatResponse(result.answer, result.sourceDocuments)
  }

  /** One `chat` call as a value: the response and the memory afterwards,
      given the chain and the memory before. The memory keeps the enhanced
      question and the answer. */
  function ChatStep(chain: (string, seq<Turn>) -> ChainResult, memory: seq<Turn>, query: string)
    : (step: (ChatResponse, seq<Turn>))
    ensures var result := chain(EnhanceQuery(query), memory);
            step.0.answer == result.answer && step.0.sourceDocuments == result.sourceDocuments
    ensures |step.1| == |memory| + 1 && step.1[..|memory|] == memory
    ensures step.1[|memory|] == Turn(EnhanceQuery(query), step.0.answer)
  {
    var result := chain(EnhanceQuery(query), memory);
    (Project(result), memory + [Turn(EnhanceQuery(query), result.answer)])
  }

  /** A run of `chat` calls from a given memory: the responses in order and
      the memory afterwards. */
  function Conversation(chain: (string, seq<Turn>) -> ChainResult, memory: seq<Turn>, queries: seq<string>)
    : (run: (seq<ChatResponse>, seq<Turn>))
    ensures |run.0| == |queries|
    ensures |run.1| == |memory| + |queries|
    decreases |queries|
  {
    if queries == [] then ([], memory)
    else
      var first := ChatStep(chain, memory, queries[0]);
      var rest := Conversation(chain, first.1, queries[1..]);
      ([first.0] + rest.0, rest.1)
  }

  /** A run of `chat` calls keeps the memory it started from and then
      remembers each question, enhanced, in the order it was asked, with the
      answer the call returned. */
  lemma {:induction false} ConversationRemembers(chain: (string, seq<Turn>) -> ChainResult,
                                                 memory: seq<Turn>, queries: seq<string>)
    ensures var run := Conversation(chain, memory, queries);
            run.1[..|memory|] == memory
            && forall k :: 0 <= k < |queries| ==>
                 run.1[|memory| + k] == Turn(EnhanceQuery(queries[k]), run.0[k].answer)
    decreases |queries|
  {
    if queries != [] {
      var first := ChatStep(chain, memory, queries[0]);
      ConversationRemembers(chain, first.1, queries[1..]);
      var rest := Conversation(chain, first.1, queries[1..]);
      var run := Conversation(chain, memory, queries);
      assert run.1[..|memory|] == first.1[..|memory|] by {
        assert run.1[..|memory| + 1] == first.1;
      }
      forall k | 0 <= k < |queries|
        ensures run.1[|memory| + k] == Turn(EnhanceQuery(queries[k]), run.0[k].answer)
      {
        if k > 0 {
          assert queries[k] == queries[1..][k - 1];
          assert run.0[k] == rest.0[k - 1];
        }
      }
    }
  }

  /** A run that starts with `query` is one `chat` call followed by the
      rest of the run. */
  lemma ConversationCons(chain: (string, seq<Turn>) -> ChainResult, memory: seq<Turn>,
                         query: string, queries: seq<string>)
    ensures var step := ChatStep(chain, memory, query);
            var rest := Conversation(chain, step.1, queries);
            Conversation(chain, memory, [query] + queries) == ([step.0] + rest.0, rest.1)
  {
    assert ([query] + queries)[1..] == queries;
  }

  /** Asking one run of questions and then another is the same as asking
      them all in one run: each call sees exactly the memory the calls
      before it left. */
  lemma {:induction false} ConversationAppend(chain: (string, seq<Turn>) -> ChainResult,
                                              memory: seq<Turn>, first: seq<string>, second: seq<string>)
    ensures var run1 := Conversation(chain, memory, first);
            var run2 := Conversation(chain, run1.1, second);
            Conversation(chain, memory, first + second) == (run1.0 + run2.0, run2.1)
    decreases |first|
  {
    if first == [] {
      assert first + second == second;
      assert [] + Conversation(chain, memory, second).0 == Conversation(chain, memory, second).0;
    } else {
      var step := ChatStep(chain, memory, first[0]);
      ConversationAppend(chain, step.1, first[1..], second);
      ConversationCons(chain, memory, first[0], first[1..] + second);
      assert [first[0]] + (first[1..] + second) == first + second;
      var run1 := Conversation(chain, step.1, first[1..]);
      var run2 := Conversation(chain, run1.1, second);
      assert [step.0] + (run1.0 + run2.0) == ([step.0] + run1.0) + run2.0;
    }
  }

  // ---------------------------------------------------------------------------
  // The chat object
  // ---------------------------------------------------------------------------

  /** `SyntopicalChat`: the store, the model settings and the chain are fixed
      at construction; the conversation memory changes with every call. */
  class SyntopicalChat {
    const vectorDb: VectorDBStorage
    const llm: LlmConfig
    const chain: (string, seq<Turn>) -> ChainResult
    var memory: seq<Turn>

    /** Only reached once the API key is found in the environment `env`. */
    constructor (vectorDb: VectorDBStorage, ghost env: map<string, string>, llm: LlmConfig,
                 chain: (string, seq<Turn>) -> ChainResult)
      requires HasApiKey(env)
      ensures this.vectorDb == vectorDb && this.llm == llm && this.chain == chain
      ensures memory == []
    {
      this.vectorDb := vectorDb;
      this.llm := llm;
      this.chain := chain;
      memory := [];
    }

    /** `SyntopicalChat(...)`: fails with the missing-key message, building
        nothing, unless the environment holds a non-empty API key; otherwise
        a chat with an empty memory. */
    static method Create(vectorDb: VectorDBStorage, env: map<string, string>, modelName: string,
                         maxTokens: int, chain: (string, seq<Turn>) -> ChainResult)
      returns (r: Result<SyntopicalChat, string>)
      ensures r.Failure? <==> !HasApiKey(env)
      ensures r.Failure? ==> r.error == MissingKeyMessage
      ensures r.Success? ==> fresh(r.value) && r.value.memory == []
                             && r.value.vectorDb == vectorDb
                             && r.value.llm == LlmConfig(modelName, maxTokens)
                             && r.value.chain == chain
    {
      if !HasApiKey(env) {
        return Failure(MissingKeyMessage);
      }
      var c := new SyntopicalChat(vectorDb, env, LlmConfig(modelName, maxTokens), chain);
      return Success(c);
    }

    /** `chat`: sends the enhanced question to the chain, which reads and
        extends the memory, and returns the answer and the sources. */
    method Chat(query: string) returns (response: ChatResponse)
      modifies this
      ensures (response, memory) == ChatStep(chain, old(memory), query)
    {
      var enhanced := EnhanceQuery(query);
      var result := chain(enhanced, memory);
      memory := memory + [Turn(enhanced, result.answer)];
      response := ChatResponse(result.answer, result.sourceDocuments);
    }

    /** `analyze_topic`: a `chat` about the structured prompt for the topic. */
    method AnalyzeTopic(topic: string) returns (response: ChatResponse)
      modifies this
      ensures (response, memory) == ChatStep(chain, old(memory), AnalysisPrompt(topic))
    {
      response := Chat(AnalysisPrompt(topic));
    }

    /** `reset_conversation`: clears the memory; the store, the settings and
        the chain stay as they are. */
    method ResetConversation()
      modifies this
      ensures memory == []
    {
      memory := [];
    }
  }
}
