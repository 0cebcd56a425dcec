/**
 * `OpenAIService` (backend/src/services/openai.ts): how the chat request is
 * put together from a question and its retrieved context, how the reply is
 * read back, and which part of an embedding response is returned.
 *
 * The two OpenAI endpoints are the parameters `chat` and `embeddings`: each
 * maps a request to the response it gets back, or to the error it throws.
 */
module OpenAI {
  import opened Wrappers
  import opened JsString
  import opened Database

  const ChatModel: String := "gpt-4"
  const EmbeddingModel: String := "text-embedding-ada-002"
  const Temperature: real := 0.3
  const MaxTokens: nat := 500

  /** The fixed instructions; the first line ends in a space before its line break. */
  const SystemPrompt: String :=
    "Je bent een behulpzame assistent voor de Koningsspelen website. \n" +
    "Je beantwoordt alleen vragen over de Koningsspelen in het Nederlands.\n" +
    "\n" +
    "Als je relevante informatie hebt gekregen in de context, gebruik die om een accuraat antwoord te geven.\n" +
    "Geef altijd de voorkeur aan informatie uit de context boven je algemene kennis.\n" +
    "Als de vraag niet over de Koningsspelen gaat, zeg dan vriendelijk dat je alleen vragen over de Koningsspelen kunt beantwoorden.\n" +
    "\n" +
    "Houd je antwoorden kort en informatief."

  const ContextHeader: String := "Context informatie van de Koningsspelen website:\n"
  const QuestionLabel: String := "Vraag: "
  const BlankLine: String := "\n\n"
  const AnswerInstruction: String := "Beantwoord de vraag op basis van de context informatie hierboven."

  /** The reply used when the model's message has no content. */
  const FallbackReply: String := "Sorry, ik kon geen antwoord genereren."

  /** What reading `[0]` of an empty array and then a property of `undefined` throws. */
  const NoFirstElement: String := "TypeError: reading a property of undefined"

  datatype Role = System | User
  datatype Message = Message(role: Role, content: String)
  datatype ChatRequest = ChatRequest(model: String, messages: seq<Message>, temperature: real, maxTokens: nat)
  datatype EmbeddingRequest = EmbeddingRequest(model: String, input: String)

  /** One choice of a chat completion; its message content may be `null`. */
  datatype Choice = Choice(content: Option<String>)

  /**
   * The user message: with a non-empty context, the context header, the
   * context, a blank line, the question line, a blank line and the answer
   * instruction; otherwise the question line alone.
   */
  function UserPrompt(question: String, context: String): String {
    if context != [] then
      ContextHeader + context + BlankLine + QuestionLabel + question + BlankLine + AnswerInstruction
    else
      QuestionLabel + question
  }

  /** Five pieces concatenated can be read back by their lengths. */
  lemma PiecesReadBack(a: String, b: String, c: String, d: String, e: String)
    ensures var s := a + b + c + d + e;
      s[..|a|] == a && s[|a|..|a| + |b|] == b && s[|a| + |b|..|a| + |b| + |c|] == c &&
      s[|a| + |b| + |c|..|a| + |b| + |c| + |d|] == d && s[|a| + |b| + |c| + |d|..] == e
  {
  }

  /** With a context, the prompt holds the header, the context, the question line and the instruction at fixed places. */
  lemma UserPromptWithContext(question: String, context: String)
    requires context != []
    ensures var p := UserPrompt(question, context);
      var q := |ContextHeader| + |context| + |BlankLine|;
      |p| == q + |QuestionLabel| + |question| + |BlankLine| + |AnswerInstruction| &&
      p[..|ContextHeader|] == ContextHeader &&
      p[|ContextHeader|..|ContextHeader| + |context|] == context &&
      p[|ContextHeader| + |context|..q] == BlankLine &&
      p[q..q + |QuestionLabel| + |question|] == QuestionLabel + question &&
      p[q + |QuestionLabel| + |question|..] == BlankLine + AnswerInstruction
  {
    PiecesReadBack(ContextHeader, context, BlankLine, QuestionLabel + question, BlankLine + AnswerInstruction);
    var p := UserPrompt(question, context);
    assert p == ContextHeader + context + BlankLine + (QuestionLabel + question) + (BlankLine + AnswerInstruction);
  }

  /** Without a context, the prompt is the question line alone. */
  lemma UserPromptWithoutContext(question: String)
    ensures UserPrompt(question, []) == QuestionLabel + question
    ensures UserPrompt(question, [])[|QuestionLabel|..] == question
  {
  }

  /** Different questions with the same context give different prompts: the question is never lost. */
  lemma UserPromptInjective(q1: String, q2: String, context: String)
    requires UserPrompt(q1, context) == UserPrompt(q2, context)
    ensures q1 == q2
  {
    var h := |QuestionLabel|;
    if context != [] {
      UserPromptWithContext(q1, context);
      UserPromptWithContext(q2, context);
      assert |q1| == |q2|;
      assert (QuestionLabel + q1)[h..] == q1 && (QuestionLabel + q2)[h..] == q2;
    } else {
      UserPromptWithoutContext(q1);
      UserPromptWithoutContext(q2);
    }
  }

  /** The chat request: `gpt-4`, the system message then the user message, temperature 0.3, at most 500 tokens. */
  function ChatRequestFor(question: String, context: String): ChatRequest {
    ChatRequest(ChatModel, [Message(System, SystemPrompt), Message(User, UserPrompt(question, context))], Temperature, MaxTokens)
  }

  /** Every request has exactly two messages, the same system message first and the user's prompt second. */
  lemma ChatRequestShape(q1: String, c1: String, q2: String, c2: String)
    ensures |ChatRequestFor(q1, c1).messages| == 2
    ensures ChatRequestFor(q1, c1).messages[0] == ChatRequestFor(q2, c2).messages[0] == Message(System, SystemPrompt)
    ensures ChatRequestFor(q1, c1).messages[1].role == User
    ensures ChatRequestFor(q1, c1).messages[1].content == ChatRequestFor(q2, c2).messages[1].content ==> q1 == q2 || c1 != c2
  {
    if ChatRequestFor(q1, c1).messages[1].content == ChatRequestFor(q2, c2).messages[1].content && c1 == c2 {
      UserPromptInjective(q1, q2, c1);
    }
  }

  /** `choices[0].message.content || fallback`: `null` and the empty string both fall back. */
  function ReplyText(choice: Choice): (reply: String)
    ensures reply != []
    ensures reply == FallbackReply <==> choice.content.None? || choice.content.value == [] || choice.content.value == FallbackReply
    ensures choice.content.Some? && choice.content.value != [] ==> reply == choice.content.value
  {
    match choice.content
    case Some(text) => if text != [] then text else FallbackReply
    case None => FallbackReply
  }

  /**
   * `generateChatResponse(question, context = '')`: an error of the API is
   * rethrown, and so is the one from a response without choices; otherwise
   * the first choice's text, or the fallback when it has none.
   */
  function GenerateChatResponse(chat: ChatRequest -> Result<seq<Choice>, String>, question: String, context: String := []): (r: Result<String, String>)
    ensures chat(ChatRequestFor(question, context)).Failure? ==> r == Failure(chat(ChatRequestFor(question, context)).error)
    ensures chat(ChatRequestFor(question, context)) == Success([]) ==> r.Failure?
    ensures r.Success? <==> chat(ChatRequestFor(question, context)).Success? && chat(ChatRequestFor(question, context)).value != []
    ensures r.Success? ==> r.value != [] && r.value == ReplyText(chat(ChatRequestFor(question, context)).value[0])
  {
    match chat(ChatRequestFor(question, context))
    case Failure(e) => Failure(e)
    case Success(choices) =>
      if choices == [] then Failure(NoFirstElement) else Success(ReplyText(choices[0]))
  }

  /**
   * `generateEmbedding(text)`: the embedding of the first element of the
   * response's data; an API error, or an empty data array, is thrown.
   */
  function GenerateEmbedding(embeddings: EmbeddingRequest -> Result<seq<Vector>, String>, text: String): (r: Result<Vector, String>)
    ensures embeddings(EmbeddingRequest(EmbeddingModel, text)).Failure? ==> r == Failure(embeddings(EmbeddingRequest(EmbeddingModel, text)).error)
    ensures r.Success? <==> embeddings(EmbeddingRequest(EmbeddingModel, text)).Success? && embeddings(EmbeddingRequest(EmbeddingModel, text)).value != []
    ensures r.Success? ==> r.value == embeddings(EmbeddingRequest(EmbeddingModel, text)).value[0]
  {
    match embeddings(EmbeddingRequest(EmbeddingModel, text))
    case Failure(e) => Failure(e)
    case Success(data) => if data == [] then Failure(NoFirstElement) else Success(data[0])
  }
}
