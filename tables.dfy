/** The four tables and the constraints the store enforces on them: serial primary keys,
    not-null columns, and foreign keys with ON DELETE CASCADE (every child table towards
    conversations) and ON DELETE SET NULL (a message's author). A column that may be null
    has an Option type; every other column is not-null by construction. */
module Db {
  import opened Wrappers
  import opened Schema
  import opened Seqs

  /** A reading of the store's logical clock. */
  type Time = nat

  datatype Conversation = Conversation(id: int, title: string, mode: ChatMode, createdAt: Time, updatedAt: Time)

  datatype Message = Message(
    id: int, conversationId: int, role: MessageRole, content: string,
    aiModel: Option<AiModel>, participantId: Option<int>, createdAt: Time)

  datatype Participant = Participant(
    id: int, conversationId: int, name: string, description: Option<string>, role: ParticipantRole,
    avatarUrl: Option<string>, aiModel: Option<AiModel>, isActive: bool, createdAt: Time)

  datatype FileUpload = FileUpload(
    id: int, conversationId: int, filename: string, filePath: string, fileSize: int,
    mimeType: string, createdAt: Time)

  /** The contents of the four tables, each in insertion order. */
  datatype Tables = Tables(
    conversations: seq<Conversation>, messages: seq<Message>,
    participants: seq<Participant>, fileUploads: seq<FileUpload>)

  // Keys of the rows, as functions that can be passed to the generic table operations.

  function ConversationKey(c: Conversation): int { c.id }
  function MessageKey(m: Message): int { m.id }
  function ParticipantKey(p: Participant): int { p.id }
  function FileUploadKey(f: FileUpload): int { f.id }
  function MessageTime(m: Message): int { m.createdAt }
  function ConversationTouched(c: Conversation): int { c.updatedAt }

  function ConversationIds(cs: seq<Conversation>): set<int> { Keys(cs, ConversationKey) }
  function ParticipantIds(ps: seq<Participant>): set<int> { Keys(ps, ParticipantKey) }

  /** Every foreign key points at an existing row: each message, participant and file upload at
      a conversation, and each message's author, when it has one, at a participant. */
  ghost predicate ReferencesHold(t: Tables)
  {
    && (forall m :: m in t.messages ==> m.conversationId in ConversationIds(t.conversations))
    && (forall m :: m in t.messages && m.participantId.Some? ==>
          m.participantId.value in ParticipantIds(t.participants))
    && (forall p :: p in t.participants ==> p.conversationId in ConversationIds(t.conversations))
    && (forall f :: f in t.fileUploads ==> f.conversationId in ConversationIds(t.conversations))
  }

  /** Serial ids grow along each table, so each id names one row; messages are also
      inserted in creation order, the clock moving on at every insert. */
  ghost predicate KeysIncrease(t: Tables)
  {
    && Increasing(t.conversations, ConversationKey)
    && Increasing(t.messages, MessageKey)
    && Increasing(t.participants, ParticipantKey)
    && Increasing(t.fileUploads, FileUploadKey)
    && Increasing(t.messages, MessageTime)
  }

  ghost predicate WellFormed(t: Tables)
  {
    ReferencesHold(t) && KeysIncrease(t)
  }

  /** INSERT INTO conversations: a row whose id is larger than every id so far keeps every
      constraint, and its id joins the table's keys. */
  lemma InsertConversationKeepsWellFormed(t: Tables, c: Conversation)
    requires WellFormed(t)
    requires forall d :: d in t.conversations ==> d.id < c.id
    ensures WellFormed(t.(conversations := t.conversations + [c]))
    ensures ConversationIds(t.conversations + [c]) == ConversationIds(t.conversations) + {c.id}
  {
    AppendKeys(t.conversations, ConversationKey, c);
  }

  /** INSERT INTO messages: a row with a larger id and a later time than every message so far,
      whose conversation exists and whose author, when it has one, exists, keeps every
      constraint. */
  lemma InsertMessageKeepsWellFormed(t: Tables, m: Message)
    requires WellFormed(t)
    requires forall k :: k in t.messages ==> k.id < m.id && k.createdAt < m.createdAt
    requires m.conversationId in ConversationIds(t.conversations)
    requires m.participantId.Some? ==> m.participantId.value in ParticipantIds(t.participants)
    ensures WellFormed(t.(messages := t.messages + [m]))
  {
    AppendKeys(t.messages, MessageKey, m);
    AppendKeys(t.messages, MessageTime, m);
  }

  /** INSERT INTO participants: a row with a larger id, in an existing conversation, keeps every
      constraint, and its id joins the table's keys. */
  lemma InsertParticipantKeepsWellFormed(t: Tables, p: Participant)
    requires WellFormed(t)
    requires forall q :: q in t.participants ==> q.id < p.id
    requires p.conversationId in ConversationIds(t.conversations)
    ensures WellFormed(t.(participants := t.participants + [p]))
    ensures ParticipantIds(t.participants + [p]) == ParticipantIds(t.participants) + {p.id}
  {
    AppendKeys(t.participants, ParticipantKey, p);
  }

  /** INSERT INTO file_uploads: a row with a larger id, in an existing conversation, keeps
      every constraint. */
  lemma InsertFileUploadKeepsWellFormed(t: Tables, f: FileUpload)
    requires WellFormed(t)
    requires forall g :: g in t.fileUploads ==> g.id < f.id
    requires f.conversationId in ConversationIds(t.conversations)
    ensures WellFormed(t.(fileUploads := t.fileUploads + [f]))
  {
    AppendKeys(t.fileUploads, FileUploadKey, f);
  }

  /** UPDATE conversations SET ... WHERE id = `c.id`: the keys do not change, so every
      constraint still holds. */
  lemma ReplaceConversationKeepsWellFormed(t: Tables, c: Conversation)
    requires WellFormed(t)
    ensures WellFormed(t.(conversations := Replace(t.conversations, ConversationKey, c)))
    ensures ConversationIds(Replace(t.conversations, ConversationKey, c)) == ConversationIds(t.conversations)
  {
    SameKeys(t.conversations, Replace(t.conversations, ConversationKey, c), ConversationKey);
  }

  /** UPDATE participants SET ... WHERE id = `p.id`: the keys do not change, and a row that
      stays in an existing conversation keeps every constraint. */
  lemma ReplaceParticipantKeepsWellFormed(t: Tables, p: Participant)
    requires WellFormed(t)
    requires p.conversationId in ConversationIds(t.conversations)
    ensures WellFormed(t.(participants := Replace(t.participants, ParticipantKey, p)))
    ensures ParticipantIds(Replace(t.participants, ParticipantKey, p)) == ParticipantIds(t.participants)
  {
    SameKeys(t.participants, Replace(t.participants, ParticipantKey, p), ParticipantKey);
  }

  /** The participants of conversation `cid`, by id. */
  function ParticipantsOf(ps: seq<Participant>, cid: int): set<int>
  {
    set p | p in ps && p.conversationId == cid :: p.id
  }

  /** ON DELETE SET NULL for one message: a reference to a deleted participant becomes null;
      nothing else about the message changes. */
  function Unlink(m: Message, gone: set<int>): (r: Message)
    ensures r == m.(participantId := r.participantId)
    ensures r.participantId.Some? ==> r.participantId == m.participantId && r.participantId.value !in gone
    ensures (m.participantId.None? || m.participantId.value !in gone) ==> r == m
  {
    if m.participantId.Some? && m.participantId.value in gone then m.(participantId := None) else m
  }

  /** ON DELETE SET NULL over the whole table: no message is removed or moved. */
  function Detach(ms: seq<Message>, gone: set<int>): (r: seq<Message>)
    ensures |r| == |ms|
    ensures forall i :: 0 <= i < |ms| ==> r[i] == Unlink(ms[i], gone)
    ensures forall m :: m in ms ==> Unlink(m, gone) in r
    ensures (forall m :: m in ms && m.participantId.Some? ==> m.participantId.value !in gone) ==> r == ms
  {
    if ms == [] then []
    else
      assert ms == [ms[0]] + ms[1..];
      [Unlink(ms[0], gone)] + Detach(ms[1..], gone)
  }

  /** Every message left after the detach is an original message, unlinked. */
  lemma DetachOrigin(ms: seq<Message>, gone: set<int>, m: Message) returns (m0: Message)
    requires m in Detach(ms, gone)
    ensures m0 in ms && m == Unlink(m0, gone)
  {
    var r := Detach(ms, gone);
    var i :| 0 <= i < |r| && r[i] == m;
    m0 := ms[i];
  }

  /** Detaching keeps every message's id and creation time where it was. */
  lemma DetachKeepsKeys(ms: seq<Message>, gone: set<int>)
    ensures Increasing(ms, MessageKey) ==> Increasing(Detach(ms, gone), MessageKey)
    ensures Increasing(ms, MessageTime) ==> Increasing(Detach(ms, gone), MessageTime)
  {
    SameKeys(ms, Detach(ms, gone), MessageKey);
    SameKeys(ms, Detach(ms, gone), MessageTime);
  }

  // The filters of the two DELETE statements and of their cascades.

  function ConversationsExcept(cs: seq<Conversation>, id: int): (r: seq<Conversation>)
    ensures forall c :: c in r <==> c in cs && c.id != id
    ensures Increasing(cs, ConversationKey) ==> Increasing(r, ConversationKey)
    ensures (forall c :: c in cs ==> c.id != id) ==> r == cs
  {
    var keep := (c: Conversation) => c.id != id;
    WhereKeepsIncreasing(cs, keep, ConversationKey);
    WhereKeepsAll(cs, keep);
    Where(cs, keep)
  }

  function MessagesOutside(ms: seq<Message>, cid: int): (r: seq<Message>)
    ensures forall m :: m in r <==> m in ms && m.conversationId != cid
    ensures Increasing(ms, MessageKey) ==> Increasing(r, MessageKey)
    ensures Increasing(ms, MessageTime) ==> Increasing(r, MessageTime)
    ensures (forall m :: m in ms ==> m.conversationId != cid) ==> r == ms
  {
    var keep := (m: Message) => m.conversationId != cid;
    WhereKeepsIncreasing(ms, keep, MessageKey);
    WhereKeepsIncreasing(ms, keep, MessageTime);
    WhereKeepsAll(ms, keep);
    Where(ms, keep)
  }

  function ParticipantsOutside(ps: seq<Participant>, cid: int): (r: seq<Participant>)
    ensures forall p :: p in r <==> p in ps && p.conversationId != cid
    ensures Increasing(ps, ParticipantKey) ==> Increasing(r, ParticipantKey)
    ensures (forall p :: p in ps ==> p.conversationId != cid) ==> r == ps
  {
    var keep := (p: Participant) => p.conversationId != cid;
    WhereKeepsIncreasing(ps, keep, ParticipantKey);
    WhereKeepsAll(ps, keep);
    Where(ps, keep)
  }

  function FileUploadsOutside(fs: seq<FileUpload>, cid: int): (r: seq<FileUpload>)
    ensures forall f :: f in r <==> f in fs && f.conversationId != cid
    ensures Increasing(fs, FileUploadKey) ==> Increasing(r, FileUploadKey)
    ensures (forall f :: f in fs ==> f.conversationId != cid) ==> r == fs
  {
    var keep := (f: FileUpload) => f.conversationId != cid;
    WhereKeepsIncreasing(fs, keep, FileUploadKey);
    WhereKeepsAll(fs, keep);
    Where(fs, keep)
  }

  function ParticipantsExcept(ps: seq<Participant>, id: int): (r: seq<Participant>)
    ensures forall p :: p in r <==> p in ps && p.id != id
    ensures Increasing(ps, ParticipantKey) ==> Increasing(r, ParticipantKey)
    ensures (forall p :: p in ps ==> p.id != id) ==> r == ps
  {
    var keep := (p: Participant) => p.id != id;
    WhereKeepsIncreasing(ps, keep, ParticipantKey);
    WhereKeepsAll(ps, keep);
    Where(ps, keep)
  }

  /** DELETE FROM conversations WHERE id = `id`, with its cascades: the conversation's
      messages, participants and file uploads go with it, and messages of any conversation
      that were written by one of the removed participants lose their author. */
  function DeleteConversation(t: Tables, id: int): (r: Tables)
    ensures forall c :: c in r.conversations <==> c in t.conversations && c.id != id
    ensures forall p :: p in r.participants <==> p in t.participants && p.conversationId != id
    ensures forall f :: f in r.fileUploads <==> f in t.fileUploads && f.conversationId != id
    ensures forall m :: m in t.messages && m.conversationId != id ==>
              Unlink(m, ParticipantsOf(t.participants, id)) in r.messages
    ensures forall m :: m in r.messages ==> m.conversationId != id
  {
    var gone := ParticipantsOf(t.participants, id);
    Tables(
      ConversationsExcept(t.conversations, id),
      Detach(MessagesOutside(t.messages, id), gone),
      ParticipantsOutside(t.participants, id),
      FileUploadsOutside(t.fileUploads, id))
  }

  /** Every message left after deleting a conversation stems from a message of another
      conversation, with its author unlinked when that author belonged to the deleted one. */
  lemma DeleteConversationMessageOrigin(t: Tables, id: int, m: Message) returns (m0: Message)
    requires m in DeleteConversation(t, id).messages
    ensures m0 in t.messages && m0.conversationId != id
    ensures m == Unlink(m0, ParticipantsOf(t.participants, id))
  {
    m0 := DetachOrigin(MessagesOutside(t.messages, id), ParticipantsOf(t.participants, id), m);
  }

  /** Deleting a conversation keeps every constraint of the store. In particular a message of
      another conversation whose author was a participant of the deleted one is left with no
      author instead of a dangling reference. */
  lemma DeleteConversationKeepsWellFormed(t: Tables, id: int)
    requires WellFormed(t)
    ensures WellFormed(DeleteConversation(t, id))
  {
    var r := DeleteConversation(t, id);
    var gone := ParticipantsOf(t.participants, id);
    DetachKeepsKeys(MessagesOutside(t.messages, id), gone);
    forall m | m in r.messages
      ensures m.conversationId in ConversationIds(r.conversations)
      ensures m.participantId.Some? ==> m.participantId.value in ParticipantIds(r.participants)
    {
      var m0 := DeleteConversationMessageOrigin(t, id, m);
      var c :| c in t.conversations && c.id == m0.conversationId;
      assert c in r.conversations;
      if m.participantId.Some? {
        var p :| p in t.participants && p.id == m.participantId.value;
        assert p.conversationId != id;
        assert p in r.participants;
      }
    }
    forall p | p in r.participants ensures p.conversationId in ConversationIds(r.conversations) {
      var c :| c in t.conversations && c.id == p.conversationId;
      assert c in r.conversations;
    }
    forall f | f in r.fileUploads ensures f.conversationId in ConversationIds(r.conversations) {
      var c :| c in t.conversations && c.id == f.conversationId;
      assert c in r.conversations;
    }
  }

  /** The cascade reaches across conversations: a message kept because it belongs to another
      conversation, but written by a participant of the deleted one, stays with every field
      intact except its author, which becomes null. */
  lemma DeleteConversationNullsForeignAuthors(t: Tables, id: int, m: Message, p: Participant)
    requires m in t.messages && m.conversationId != id
    requires p in t.participants && p.conversationId == id && m.participantId == Some(p.id)
    ensures m.(participantId := None) in DeleteConversation(t, id).messages
    ensures p !in DeleteConversation(t, id).participants
  {
    assert p.id in ParticipantsOf(t.participants, id);
  }

  /** After the delete no conversation has the deleted id. */
  lemma DeleteConversationRemoves(t: Tables, id: int)
    ensures id !in ConversationIds(DeleteConversation(t, id).conversations)
  {
    var r := DeleteConversation(t, id).conversations;
    assert forall c :: c in r ==> c.id != id;
  }

  /** Deleting a conversation that does not exist changes nothing (and raises nothing). */
  lemma DeleteMissingConversation(t: Tables, id: int)
    requires WellFormed(t) && id !in ConversationIds(t.conversations)
    ensures DeleteConversation(t, id) == t
  {
    var ids := ConversationIds(t.conversations);
    assert forall c :: c in t.conversations ==> c.id in ids;
    assert forall m :: m in t.messages ==> m.conversationId in ids;
    assert forall p :: p in t.participants ==> p.conversationId in ids;
    assert forall f :: f in t.fileUploads ==> f.conversationId in ids;
    var gone := ParticipantsOf(t.participants, id);
    assert forall p :: p in t.participants ==> p.conversationId != id;
    assert gone == {};
    assert ConversationsExcept(t.conversations, id) == t.conversations;
    assert MessagesOutside(t.messages, id) == t.messages;
    assert Detach(t.messages, gone) == t.messages;
  }

  /** DELETE FROM participants WHERE id = `id`: the participant goes, and the messages it wrote
      stay, with no author. Conversations and file uploads are untouched. */
  function DeleteParticipant(t: Tables, id: int): (r: Tables)
    ensures r.conversations == t.conversations && r.fileUploads == t.fileUploads
    ensures forall p :: p in r.participants <==> p in t.participants && p.id != id
    ensures |r.messages| == |t.messages|
    ensures forall i :: 0 <= i < |t.messages| ==>
              r.messages[i] == (if t.messages[i].participantId == Some(id)
                                then t.messages[i].(participantId := None) else t.messages[i])
  {
    Tables(t.conversations, Detach(t.messages, {id}), ParticipantsExcept(t.participants, id), t.fileUploads)
  }

  lemma DeleteParticipantKeepsWellFormed(t: Tables, id: int)
    requires WellFormed(t)
    ensures WellFormed(DeleteParticipant(t, id))
  {
    var r := DeleteParticipant(t, id);
    DetachKeepsKeys(t.messages, {id});
    forall m | m in r.messages && m.participantId.Some?
      ensures m.participantId.value in ParticipantIds(r.participants)
    {
      var m0 := DetachOrigin(t.messages, {id}, m);
      var p :| p in t.participants && p.id == m.participantId.value;
      assert p in r.participants;
    }
    forall m | m in r.messages ensures m.conversationId in ConversationIds(r.conversations) {
      var m0 := DetachOrigin(t.messages, {id}, m);
    }
  }

  /** After the delete no participant has the deleted id. */
  lemma DeleteParticipantRemoves(t: Tables, id: int)
    ensures id !in ParticipantIds(DeleteParticipant(t, id).participants)
  {
    var r := DeleteParticipant(t, id).participants;
    assert forall p :: p in r ==> p.id != id;
  }

  /** Deleting a participant that does not exist changes nothing (and raises nothing). */
  lemma DeleteMissingParticipant(t: Tables, id: int)
    requires WellFormed(t) && id !in ParticipantIds(t.participants)
    ensures DeleteParticipant(t, id) == t
  {
    assert forall p :: p in t.participants ==> p.id != id;
    assert forall m :: m in t.messages && m.participantId.Some? ==> m.participantId.value != id;
  }
}
