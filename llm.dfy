/** The answer generator's client: the key check made when it is created,
    the prompt built from a question and the found documents, the request
    payload, and how the reply (or the failure of the request) becomes the
    answer. The HTTP exchange itself is a parameter: ApiReply says what came
    back. The environment variable is read by the caller and passed in. */
module Llm {

  import opened Common
  import opened Strings

  const MissingKey: string := "DEEPSEEK_API_KEY가 설정되지 않았습니다."
  const BaseUrl: string := "https://api.deepseek.com/v1"
  const CompletionsPath: string := "/chat/completions"
  const ModelName: string := "deepseek-chat"
  const DefaultMaxTokens: int := 1000
  const DefaultTemperature: real := 0.7
  const SystemPrompt: string :=
    "당신은 논문 Q&A 시스템의 AI 어시스턴트입니다. 주어진 문서들을 참고하여 질문에 정확하고 명확하게 답변해주세요."
  const Intro: string := "다음 문서들을 참고하여 질문에 답변해주세요:"
  const QuestionLabel: string := "\n\n질문: "
  const AnswerLabel: string := "\n\n답변:"
  const DocumentLabel: string := "문서: "
  const DocumentSeparator: string := "\n\n"
  const UntitledDocument: string := "제목 없음"
  const RequestFailedPrefix: string := "DeepSeek API 호출 중 오류 발생: "

  datatype Client = Client(apiKey: string, baseUrl: string, headers: seq<(string, string)>)

  /** DeepSeekAPI(): a missing or empty key is refused with ValueError. */
  function NewClient(key: Option<string>): (r: Result<Client, string>)
    ensures r.Failure? <==> key == None || key == Some("")
    ensures r.Failure? ==> r.error == MissingKey
    ensures r.Success? ==> r.value.apiKey == key.value && r.value.baseUrl == BaseUrl &&
                           ("Authorization", "Bearer " + key.value) in r.value.headers
  {
    if key.None? || key.value == "" then Failure(MissingKey)
    else
      Success(Client(key.value, BaseUrl,
                     [("Authorization", "Bearer " + key.value), ("Content-Type", "application/json")]))
  }

  // ---------------------------------------------------------------------
  // The prompt

  /** "문서: {title}\n{text}" with the title defaulting to "제목 없음" and
      the text to "". */
  function RenderDocument(doc: Record): string
  {
    DocumentLabel + PyStr(Get(doc, "title", Str(UntitledDocument))) + "\n" + PyStr(Get(doc, "text", Str("")))
  }

  function RenderDocuments(docs: seq<Record>): (parts: seq<string>)
    ensures |parts| == |docs|
    ensures forall i :: 0 <= i < |docs| ==> parts[i] == RenderDocument(docs[i])
  {
    if docs == [] then [] else [RenderDocument(docs[0])] + RenderDocuments(docs[1..])
  }

  /** The documents, rendered and separated by a blank line. */
  function ContextText(docs: seq<Record>): string
  {
    Join(RenderDocuments(docs), DocumentSeparator)
  }

  /** The documents keep their order in the context: the context of a + b is
      the context of a, a blank line, then the context of b. */
  lemma ContextTextAppend(a: seq<Record>, b: seq<Record>)
    requires a != [] && b != []
    ensures ContextText(a + b) == ContextText(a) + DocumentSeparator + ContextText(b)
  {
    assert RenderDocuments(a + b) == RenderDocuments(a) + RenderDocuments(b);
    JoinAppend(RenderDocuments(a), RenderDocuments(b), DocumentSeparator);
  }

  /** A document with neither title nor text still renders its label and
      the default title. */
  lemma EmptyDocumentRendering()
    ensures RenderDocument(map[]) == "문서: 제목 없음\n"
  {
  }

  /** The user content: the question alone when there is no context (None
      or an empty list), otherwise the framed prompt. The question is
      whatever the caller passed; it is rendered with str() only when it is
      framed. */
  function FullPrompt(prompt: Value, context: Option<seq<Record>>): Value
  {
    if context.None? || context.value == [] then prompt
    else Str(Intro + "\n\n" + ContextText(context.value) + QuestionLabel + PyStr(prompt) + AnswerLabel)
  }

  /** With context, the prompt opens with the instruction and a blank line
      and closes with the question between its label and the answer cue;
      without context it is the question unchanged. */
  lemma PromptFraming(prompt: Value, context: Option<seq<Record>>)
    ensures (context.None? || context.value == []) ==> FullPrompt(prompt, context) == prompt
    ensures context.Some? && context.value != [] ==>
              var p := FullPrompt(prompt, context).s;
              var tail := QuestionLabel + PyStr(prompt) + AnswerLabel;
              |p| >= |Intro| + 2 + |tail| &&
              p[..|Intro| + 2] == Intro + "\n\n" &&
              p[|p| - |tail|..] == tail
  {
    if context.Some? && context.value != [] {
      var head := Intro + "\n\n";
      var c := ContextText(context.value);
      var tail := QuestionLabel + PyStr(prompt) + AnswerLabel;
      assert FullPrompt(prompt, context).s == head + c + tail;
      ConcatEnds(head, c, tail);
    }
  }

  // ---------------------------------------------------------------------
  // The request

  datatype ChatMessage = ChatMessage(role: string, content: Value)

  datatype Payload = Payload(model: string, messages: seq<ChatMessage>, maxTokens: int, temperature: real)

  /** The JSON body posted to the completions endpoint. The limits default
      as generate_response's keyword arguments do. */
  function MakePayload(prompt: Value, context: Option<seq<Record>>,
                       maxTokens: int := DefaultMaxTokens, temperature: real := DefaultTemperature): (r: Payload)
    ensures r.model == ModelName && r.maxTokens == maxTokens && r.temperature == temperature
    ensures |r.messages| == 2
    ensures r.messages[0] == ChatMessage("system", Str(SystemPrompt))
    ensures r.messages[1] == ChatMessage("user", FullPrompt(prompt, context))
  {
    Payload(ModelName,
            [ChatMessage("system", Str(SystemPrompt)), ChatMessage("user", FullPrompt(prompt, context))],
            maxTokens, temperature)
  }

  /** The server passes only the question and the documents, so the body
      it posts always asks for at most 1000 tokens at temperature 0.7. */
  lemma DefaultPayload(prompt: Value, context: Option<seq<Record>>)
    ensures MakePayload(prompt, context).maxTokens == 1000
    ensures MakePayload(prompt, context).temperature == 0.7
    ensures MakePayload(prompt, context).messages[1].content == FullPrompt(prompt, context)
  {
  }

  /** The URL the payload is posted to. */
  function Endpoint(client: Client): string
  {
    client.baseUrl + CompletionsPath
  }

  /** Every client built from a key posts to DeepSeek's completions URL. */
  lemma ClientEndpoint(key: string)
    requires key != ""
    ensures NewClient(Some(key)).Success?
    ensures Endpoint(NewClient(Some(key)).value) == "https://api.deepseek.com/v1/chat/completions"
  {
  }

  /** What the HTTP exchange produced: a request error (connection failure
      or an error status, with its str()), or the parsed reply, of which
      only the message contents of the choices matter. */
  datatype ApiReply = RequestFailed(detail: string) | Completion(choices: seq<Value>)

  /** How generate_response ends: the answer, the wrapped request error, or
      the IndexError of a reply with no choice, which is not wrapped. */
  datatype Generated = Answered(content: Value) | RequestError(message: string) | NoChoice

  /** generate_response(prompt, context, max_tokens, temperature), given
      what the request to the endpoint returned for the payload. */
  function GenerateResponse(reply: ApiReply): (r: Generated)
    ensures reply.RequestFailed? <==> r.RequestError?
    ensures r.RequestError? ==> r.message == RequestFailedPrefix + reply.detail
    ensures reply.Completion? && reply.choices != [] ==> r == Answered(reply.choices[0])
    ensures r.NoChoice? <==> reply == Completion([])
  {
    match reply
    case RequestFailed(detail) => RequestError(RequestFailedPrefix + detail)
    case Completion(choices) => if choices == [] then NoChoice else Answered(choices[0])
  }
}
