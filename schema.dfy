/** The enumerations shared by the table definitions and the input schemas, and the input
    records of the handlers. Each enumeration is a datatype, so a row or an input can hold
    nothing but one of its values; the `Parse` functions are the validation that rejects
    any other text before a handler runs. */
module Schema {
  import opened Wrappers

  datatype ChatMode = SmartAnswer | GroupChat | Autopilot

  datatype AiModel = ChatGpt | Gemini | DeepSeek | Grok

  datatype MessageRole = User | Assistant | System

  datatype ParticipantRole = User | Assistant | Moderator | Expert | Analyst

  function ChatModeName(m: ChatMode): string
  {
    match m
    case SmartAnswer => "smart_answer"
    case GroupChat => "group_chat"
    case Autopilot => "autopilot"
  }

  /** Accepts exactly the three mode names, each as the mode it names. */
  function ParseChatMode(s: string): (r: Option<ChatMode>)
    ensures r.Some? <==> s in {"smart_answer", "group_chat", "autopilot"}
    ensures r.Some? ==> ChatModeName(r.value) == s
    ensures forall m :: ChatModeName(m) == s ==> r == Some(m)
  {
    if s == "smart_answer" then Some(SmartAnswer)
    else if s == "group_chat" then Some(GroupChat)
    else if s == "autopilot" then Some(Autopilot)
    else None
  }

  function AiModelName(m: AiModel): string
  {
    match m
    case ChatGpt => "chatgpt"
    case Gemini => "gemini"
    case DeepSeek => "deepseek"
    case Grok => "grok"
  }

  /** Accepts exactly the four model tags, each as the model it names. */
  function ParseAiModel(s: string): (r: Option<AiModel>)
    ensures r.Some? <==> s in {"chatgpt", "gemini", "deepseek", "grok"}
    ensures r.Some? ==> AiModelName(r.value) == s
    ensures forall m :: AiModelName(m) == s ==> r == Some(m)
  {
    if s == "chatgpt" then Some(ChatGpt)
    else if s == "gemini" then Some(Gemini)
    else if s == "deepseek" then Some(DeepSeek)
    else if s == "grok" then Some(Grok)
    else None
  }

  function MessageRoleName(r: MessageRole): string
  {
    match r
    case User => "user"
    case Assistant => "assistant"
    case System => "system"
  }

  /** Accepts exactly the three message roles. */
  function ParseMessageRole(s: string): (r: Option<MessageRole>)
    ensures r.Some? <==> s in {"user", "assistant", "system"}
    ensures r.Some? ==> MessageRoleName(r.value) == s
    ensures forall x :: MessageRoleName(x) == s ==> r == Some(x)
  {
    if s == "user" then Some(MessageRole.User)
    else if s == "assistant" then Some(MessageRole.Assistant)
    else if s == "system" then Some(System)
    else None
  }

  function ParticipantRoleName(r: ParticipantRole): string
  {
    match r
    case User => "user"
    case Assistant => "assistant"
    case Moderator => "moderator"
    case Expert => "expert"
    case Analyst => "analyst"
  }

  /** Accepts exactly the five participant roles. */
  function ParseParticipantRole(s: string): (r: Option<ParticipantRole>)
    ensures r.Some? <==> s in {"user", "assistant", "moderator", "expert", "analyst"}
    ensures r.Some? ==> ParticipantRoleName(r.value) == s
    ensures forall x :: ParticipantRoleName(x) == s ==> r == Some(x)
  {
    if s == "user" then Some(ParticipantRole.User)
    else if s == "assistant" then Some(ParticipantRole.Assistant)
    else if s == "moderator" then Some(Moderator)
    else if s == "expert" then Some(Expert)
    else if s == "analyst" then Some(Analyst)
    else None
  }

  // Input records. A field that is optional but not nullable is an Option; one that is
  // optional and nullable is a Field. Ids and sizes are integers.

  datatype CreateConversationInput = CreateConversationInput(title: string, mode: ChatMode)

  /** Only the title can be changed; there is no way to give a new mode. */
  datatype UpdateConversationInput = UpdateConversationInput(id: int, title: Option<string>)

  datatype CreateMessageInput = CreateMessageInput(
    conversationId: int, role: MessageRole, content: string,
    aiModel: Field<AiModel>, participantId: Field<int>)

  datatype GetMessagesInput = GetMessagesInput(conversationId: int, limit: Option<int>, offset: Option<int>)

  datatype CreateParticipantInput = CreateParticipantInput(
    conversationId: int, name: string, description: Field<string>, role: ParticipantRole,
    avatarUrl: Field<string>, aiModel: Field<AiModel>, isActive: Option<bool>)

  datatype UpdateParticipantInput = UpdateParticipantInput(
    id: int, name: Option<string>, description: Field<string>, role: Option<ParticipantRole>,
    avatarUrl: Field<string>, aiModel: Field<AiModel>, isActive: Option<bool>)

  datatype CreateFileUploadInput = CreateFileUploadInput(
    conversationId: int, filename: string, filePath: string, fileSize: int, mimeType: string)

  /** The bounds of the message query: a limit is a positive integer, an offset a non-negative one. */
  predicate ValidPagination(input: GetMessagesInput)
  {
    && (input.limit.Some? ==> input.limit.value >= 1)
    && (input.offset.Some? ==> input.offset.value >= 0)
  }

  /** At least one optional field of a participant update is given. */
  predicate ChangesSomething(input: UpdateParticipantInput)
  {
    || input.name.Some? || !input.description.Absent? || input.role.Some?
    || !input.avatarUrl.Absent? || !input.aiModel.Absent? || input.isActive.Some?
  }
}
