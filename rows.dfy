/** The values the create and update handlers write: the coercions applied to optional create
    inputs, and the partial updates built field by field. */
module Rows {
  import opened Wrappers
  import opened Schema
  import opened Db

  /** `value || null` on text: the empty string is falsy, so it is stored as null, like an
      absent or null field. */
  function TextOrNull(f: Field<string>): (r: Option<string>)
    ensures r.Some? <==> f.Value? && f.value != ""
    ensures r.Some? ==> r.value == f.value
  {
    match f
    case Value(s) => if |s| == 0 then None else Some(s)
    case _ => None
  }

  /** `value || null` on a number: 0 is falsy, so it is stored as null and never checked
      against the participants table. */
  function IdOrNull(f: Field<int>): (r: Option<int>)
    ensures r.Some? <==> f.Value? && f.value != 0
    ensures r.Some? ==> r.value == f.value
  {
    match f
    case Value(n) => if n == 0 then None else Some(n)
    case _ => None
  }

  /** `value || null` on a model tag: every tag is a non-empty string, so only an absent or
      null field becomes null. */
  function ModelOrNull(f: Field<AiModel>): (r: Option<AiModel>)
    ensures r.Some? <==> f.Value?
    ensures r.Some? ==> r.value == f.value
  {
    match f
    case Value(m) => if |AiModelName(m)| == 0 then None else Some(m)
    case _ => None
  }

  /** `value ?? true`: only a missing flag takes the default; an explicit false is kept. */
  function ActiveOrDefault(o: Option<bool>): (r: bool)
    ensures o.None? ==> r
    ensures o.Some? ==> r == o.value
  {
    match o
    case Some(b) => b
    case None => true
  }

  /** The conversation a title update leaves behind: `updated_at` always moves to `now`, the
      title changes only when one is given, and id, mode and creation time stay. */
  function UpdatedConversation(c: Conversation, input: UpdateConversationInput, now: Time): (r: Conversation)
    ensures r.id == c.id && r.mode == c.mode && r.createdAt == c.createdAt
    ensures r.updatedAt == now
    ensures input.title.None? ==> r.title == c.title
    ensures input.title.Some? ==> r.title == input.title.value
  {
    var touched := c.(updatedAt := now);
    if input.title.Some? then touched.(title := input.title.value) else touched
  }

  /** The `updateData` object of a participant update: each column either left out of the
      SET list (None) or set, a nullable column possibly to null. */
  datatype ParticipantChanges = ParticipantChanges(
    name: Option<string>, description: Option<Option<string>>, role: Option<ParticipantRole>,
    avatarUrl: Option<Option<string>>, aiModel: Option<Option<AiModel>>, isActive: Option<bool>)

  /** `field !== undefined`: a field given as null is given, as null. */
  function Given<T>(f: Field<T>): Option<Option<T>>
  {
    match f
    case Absent => None
    case Null => Some(None)
    case Value(v) => Some(Some(v))
  }

  function ChangesFor(input: UpdateParticipantInput): ParticipantChanges
  {
    ParticipantChanges(input.name, Given(input.description), input.role,
                       Given(input.avatarUrl), Given(input.aiModel), input.isActive)
  }

  function Apply<T>(change: Option<T>, current: T): T
  {
    if change.Some? then change.value else current
  }

  /** The participant a partial update leaves behind. Each field is untouched when absent
      from the input and takes the given value otherwise; an explicit null clears a nullable
      field, and an empty string is kept as given. Id, conversation and creation time stay. */
  function UpdatedParticipant(p: Participant, input: UpdateParticipantInput): (r: Participant)
    ensures r.id == p.id && r.conversationId == p.conversationId && r.createdAt == p.createdAt
    ensures input.name.None? ==> r.name == p.name
    ensures input.name.Some? ==> r.name == input.name.value
    ensures input.role.None? ==> r.role == p.role
    ensures input.role.Some? ==> r.role == input.role.value
    ensures input.isActive.None? ==> r.isActive == p.isActive
    ensures input.isActive.Some? ==> r.isActive == input.isActive.value
    ensures input.description.Absent? ==> r.description == p.description
    ensures input.description.Null? ==> r.description.None?
    ensures input.description.Value? ==> r.description == Some(input.description.value)
    ensures input.avatarUrl.Absent? ==> r.avatarUrl == p.avatarUrl
    ensures input.avatarUrl.Null? ==> r.avatarUrl.None?
    ensures input.avatarUrl.Value? ==> r.avatarUrl == Some(input.avatarUrl.value)
    ensures input.aiModel.Absent? ==> r.aiModel == p.aiModel
    ensures input.aiModel.Null? ==> r.aiModel.None?
    ensures input.aiModel.Value? ==> r.aiModel == Some(input.aiModel.value)
  {
    var ch := ChangesFor(input);
    p.(name := Apply(ch.name, p.name),
       description := Apply(ch.description, p.description),
       role := Apply(ch.role, p.role),
       avatarUrl := Apply(ch.avatarUrl, p.avatarUrl),
       aiModel := Apply(ch.aiModel, p.aiModel),
       isActive := Apply(ch.isActive, p.isActive))
  }

  /** Creating and updating disagree on the empty string: create stores null, update stores "". */
  lemma EmptyTextCreateVersusUpdate(p: Participant, input: UpdateParticipantInput)
    requires input.description == Value("")
    ensures TextOrNull(input.description) == None
    ensures UpdatedParticipant(p, input).description == Some("")
  {
  }
}
