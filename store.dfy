/** The store: the database's four tables, the serial sequence behind each table's ids, a
    logical clock, and one method per handler that writes. Each method is one atomic step;
    a failed insert or update changes no row. */
module ChatStore {
  import opened Wrappers
  import opened Schema
  import opened Seqs
  import opened Db
  import opened Rows
  import Queries

  /** The foreign key a rejected insert would have broken. */
  datatype ForeignKey = MessageConversation | MessageParticipant | ParticipantConversation | FileUploadConversation

  datatype Error =
    | ForeignKeyViolation(constraint: ForeignKey)
    | ConversationNotFound(id: int)
    | ParticipantNotFound(id: int)

  /** Every sequence hands out positive ids, every id in a table lies below the next value of
      that table's sequence, and no timestamp is later than the clock; a conversation is never
      touched before it is created. */
  ghost predicate Issued(t: Tables, nc: int, nm: int, np: int, nf: int, clock: Time)
  {
    && 0 < nc && 0 < nm && 0 < np && 0 < nf
    && (forall c :: c in t.conversations ==> 0 < c.id < nc && c.createdAt <= c.updatedAt <= clock)
    && (forall m :: m in t.messages ==> 0 < m.id < nm && m.createdAt <= clock)
    && (forall p :: p in t.participants ==> 0 < p.id < np && p.createdAt <= clock)
    && (forall f :: f in t.fileUploads ==> 0 < f.id < nf && f.createdAt <= clock)
  }

  /** The store's constraints, and only ids and times already handed out. */
  ghost predicate Invariant(t: Tables, nc: int, nm: int, np: int, nf: int, clock: Time)
  {
    WellFormed(t) && Issued(t, nc, nm, np, nf, clock)
  }

  /** Moving a sequence or the clock forward keeps everything issued so far issued. */
  lemma IssuedLater(t: Tables, nc: int, nm: int, np: int, nf: int, clock: Time,
                    nc': int, nm': int, np': int, nf': int, clock': Time)
    requires Issued(t, nc, nm, np, nf, clock)
    requires nc <= nc' && nm <= nm' && np <= np' && nf <= nf' && clock <= clock'
    ensures Issued(t, nc', nm', np', nf', clock')
  {
  }

  /** A conversation stamped with the next id and a later time than the clock comes after every
      conversation so far, in both id and last activity. */
  lemma IssueConversation(t: Tables, nc: int, nm: int, np: int, nf: int, clock: Time, c: Conversation)
    requires Issued(t, nc, nm, np, nf, clock)
    requires c.id == nc && clock < c.createdAt && c.updatedAt == c.createdAt
    ensures forall d :: d in t.conversations ==> d.id < c.id && d.updatedAt < c.updatedAt
    ensures Issued(t.(conversations := t.conversations + [c]), nc + 1, nm, np, nf, c.createdAt)
  {
  }

  /** A message stamped with the next id and a later time than the clock comes after every
      message so far, in both id and time. */
  lemma IssueMessage(t: Tables, nc: int, nm: int, np: int, nf: int, clock: Time, m: Message)
    requires Issued(t, nc, nm, np, nf, clock)
    requires m.id == nm && clock < m.createdAt
    ensures forall k :: k in t.messages ==> k.id < m.id && k.createdAt < m.createdAt
    ensures Issued(t.(messages := t.messages + [m]), nc, nm + 1, np, nf, m.createdAt)
  {
  }

  lemma IssueParticipant(t: Tables, nc: int, nm: int, np: int, nf: int, clock: Time, p: Participant)
    requires Issued(t, nc, nm, np, nf, clock)
    requires p.id == np && clock < p.createdAt
    ensures forall q :: q in t.participants ==> q.id < p.id
    ensures Issued(t.(participants := t.participants + [p]), nc, nm, np + 1, nf, p.createdAt)
  {
  }

  lemma IssueFileUpload(t: Tables, nc: int, nm: int, np: int, nf: int, clock: Time, f: FileUpload)
    requires Issued(t, nc, nm, np, nf, clock)
    requires f.id == nf && clock < f.createdAt
    ensures forall g :: g in t.fileUploads ==> g.id < f.id
    ensures Issued(t.(fileUploads := t.fileUploads + [f]), nc, nm, np, nf + 1, f.createdAt)
  {
  }

  /** Deleting rows issues nothing new. */
  lemma IssuedAfterDeleteConversation(t: Tables, nc: int, nm: int, np: int, nf: int, clock: Time, id: int)
    requires Issued(t, nc, nm, np, nf, clock)
    ensures Issued(Db.DeleteConversation(t, id), nc, nm, np, nf, clock)
  {
    var r := Db.DeleteConversation(t, id);
    forall m | m in r.messages ensures 0 < m.id < nm && m.createdAt <= clock {
      var m0 := DeleteConversationMessageOrigin(t, id, m);
    }
  }

  /** One createConversation, as the store sees it: the new row comes after every other in id
      and in last activity, so it keeps the store's invariant, is found by its id and is
      listed first. */
  lemma CreateConversationStep(t: Tables, nc: int, nm: int, np: int, nf: int, clock: Time, c: Conversation)
    requires Invariant(t, nc, nm, np, nf, clock)
    requires c.id == nc && c.createdAt == clock + 1 && c.updatedAt == clock + 1
    ensures c.id !in ConversationIds(t.conversations)
    ensures Invariant(t.(conversations := t.conversations + [c]), nc + 1, nm, np, nf, clock + 1)
    ensures Queries.GetConversation(t.conversations + [c], c.id) == Some(c)
    ensures |Queries.ListConversations(t.conversations + [c])| > 0 && Queries.ListConversations(t.conversations + [c])[0] == c
  {
    IssueConversation(t, nc, nm, np, nf, clock, c);
    InsertConversationKeepsWellFormed(t, c);
    Queries.GetConversationFinds(t.conversations + [c], c);
    Queries.ListConversationsNewestFirst(t.conversations + [c], c);
  }

  /** One updateConversation of an existing row, as the store sees it: a row rewritten in
      place, with its id and creation time kept and touched after the clock, keeps the store's
      invariant, and it is touched strictly after it was created. */
  lemma UpdateConversationStep(t: Tables, nc: int, nm: int, np: int, nf: int, clock: Time,
                               c: Conversation, updated: Conversation)
    requires Invariant(t, nc, nm, np, nf, clock)
    requires c in t.conversations && updated.id == c.id && updated.createdAt == c.createdAt
    requires clock < updated.updatedAt
    ensures updated.updatedAt > updated.createdAt
    ensures Invariant(t.(conversations := Replace(t.conversations, ConversationKey, updated)), nc, nm, np, nf, updated.updatedAt)
  {
    IssuedLater(t, nc, nm, np, nf, clock, nc, nm, np, nf, updated.updatedAt);
    IssuedAfterReplaceConversation(t, nc, nm, np, nf, updated.updatedAt, updated);
    ReplaceConversationKeepsWellFormed(t, updated);
  }

  /** One accepted createMessage, as the store sees it. */
  lemma CreateMessageStep(t: Tables, nc: int, nm: int, np: int, nf: int, clock: Time, m: Message)
    requires Invariant(t, nc, nm, np, nf, clock)
    requires m.id == nm && m.createdAt == clock + 1
    requires m.conversationId in ConversationIds(t.conversations)
    requires m.participantId.Some? ==> m.participantId.value in ParticipantIds(t.participants)
    ensures m.id !in Keys(t.messages, MessageKey)
    ensures Invariant(t.(messages := t.messages + [m]), nc, nm + 1, np, nf, clock + 1)
  {
    IssueMessage(t, nc, nm, np, nf, clock, m);
    InsertMessageKeepsWellFormed(t, m);
  }

  /** One accepted createParticipant, as the store sees it. */
  lemma CreateParticipantStep(t: Tables, nc: int, nm: int, np: int, nf: int, clock: Time, p: Participant)
    requires Invariant(t, nc, nm, np, nf, clock)
    requires p.id == np && p.createdAt == clock + 1
    requires p.conversationId in ConversationIds(t.conversations)
    ensures p.id !in ParticipantIds(t.participants)
    ensures Invariant(t.(participants := t.participants + [p]), nc, nm, np + 1, nf, clock + 1)
  {
    IssueParticipant(t, nc, nm, np, nf, clock, p);
    InsertParticipantKeepsWellFormed(t, p);
  }

  /** One updateParticipant of an existing row, as the store sees it: a row rewritten in
      place, with its id, conversation and creation time kept, keeps the store's invariant. */
  lemma UpdateParticipantStep(t: Tables, nc: int, nm: int, np: int, nf: int, clock: Time,
                              p: Participant, updated: Participant)
    requires Invariant(t, nc, nm, np, nf, clock)
    requires p in t.participants
    requires updated.id == p.id && updated.conversationId == p.conversationId && updated.createdAt == p.createdAt
    ensures Invariant(t.(participants := Replace(t.participants, ParticipantKey, updated)), nc, nm, np, nf, clock)
  {
    assert p.conversationId in ConversationIds(t.conversations);
    IssuedAfterReplaceParticipant(t, nc, nm, np, nf, clock, updated);
    ReplaceParticipantKeepsWellFormed(t, updated);
  }

  /** One accepted createFileUpload, as the store sees it. */
  lemma CreateFileUploadStep(t: Tables, nc: int, nm: int, np: int, nf: int, clock: Time, f: FileUpload)
    requires Invariant(t, nc, nm, np, nf, clock)
    requires f.id == nf && f.createdAt == clock + 1
    requires f.conversationId in ConversationIds(t.conversations)
    ensures f.id !in Keys(t.fileUploads, FileUploadKey)
    ensures Invariant(t.(fileUploads := t.fileUploads + [f]), nc, nm, np, nf + 1, clock + 1)
  {
    IssueFileUpload(t, nc, nm, np, nf, clock, f);
    InsertFileUploadKeepsWellFormed(t, f);
  }

  /** One conversation delete, as the store sees it: its constraints and what it has issued
      survive. */
  lemma DeleteConversationStep(t: Tables, nc: int, nm: int, np: int, nf: int, clock: Time, id: int)
    requires Invariant(t, nc, nm, np, nf, clock)
    ensures Invariant(Db.DeleteConversation(t, id), nc, nm, np, nf, clock)
  {
    DeleteConversationKeepsWellFormed(t, id);
    IssuedAfterDeleteConversation(t, nc, nm, np, nf, clock, id);
  }

  /** One participant delete, as the store sees it. */
  lemma DeleteParticipantStep(t: Tables, nc: int, nm: int, np: int, nf: int, clock: Time, id: int)
    requires Invariant(t, nc, nm, np, nf, clock)
    ensures Invariant(Db.DeleteParticipant(t, id), nc, nm, np, nf, clock)
  {
    DeleteParticipantKeepsWellFormed(t, id);
    IssuedAfterDeleteParticipant(t, nc, nm, np, nf, clock, id);
  }

  lemma IssuedAfterDeleteParticipant(t: Tables, nc: int, nm: int, np: int, nf: int, clock: Time, id: int)
    requires Issued(t, nc, nm, np, nf, clock)
    ensures Issued(Db.DeleteParticipant(t, id), nc, nm, np, nf, clock)
  {
    var r := Db.DeleteParticipant(t, id);
    forall m | m in r.messages ensures 0 < m.id < nm && m.createdAt <= clock {
      var m0 := DetachOrigin(t.messages, {id}, m);
    }
  }

  /** Rewriting a row in place keeps its id; a conversation touched no earlier than it was
      created, and no later than the clock, stays issued. */
  lemma IssuedAfterReplaceConversation(t: Tables, nc: int, nm: int, np: int, nf: int, clock: Time, c: Conversation)
    requires Issued(t, nc, nm, np, nf, clock)
    requires c.id in ConversationIds(t.conversations) && c.createdAt <= c.updatedAt <= clock
    ensures Issued(t.(conversations := Replace(t.conversations, ConversationKey, c)), nc, nm, np, nf, clock)
  {
    var d :| d in t.conversations && d.id == c.id;
  }

  lemma IssuedAfterReplaceParticipant(t: Tables, nc: int, nm: int, np: int, nf: int, clock: Time, p: Participant)
    requires Issued(t, nc, nm, np, nf, clock)
    requires p.id in ParticipantIds(t.participants) && p.createdAt <= clock
    ensures Issued(t.(participants := Replace(t.participants, ParticipantKey, p)), nc, nm, np, nf, clock)
  {
    var q :| q in t.participants && q.id == p.id;
  }

  class Store {
    /** The four tables. */
    var tables: Tables

    // The value each table's serial sequence hands out next.
    var nextConversationId: int
    var nextMessageId: int
    var nextParticipantId: int
    var nextFileUploadId: int

    /** The logical clock: it moves on before each timestamp is written, so no two
        timestamps are equal and later writes carry later times. */
    var clock: Time

    ghost predicate Valid()
      reads this
    {
      Invariant(tables, nextConversationId, nextMessageId, nextParticipantId, nextFileUploadId, clock)
    }

    /** An empty store; every serial sequence starts at 1. */
    constructor ()
      ensures Valid()
      ensures tables == Tables([], [], [], [])
      ensures nextConversationId == 1 && nextMessageId == 1 && nextParticipantId == 1 && nextFileUploadId == 1
      ensures clock == 0
    {
      tables := Tables([], [], [], []);
      nextConversationId, nextMessageId, nextParticipantId, nextFileUploadId := 1, 1, 1, 1;
      clock := 0;
    }

    /** createConversation: a new row with the given title and mode, a fresh id, and both
        timestamps at the insertion time. It is then found by its id and listed first. */
    method CreateConversation(input: CreateConversationInput) returns (c: Conversation)
      requires Valid()
      modifies this
      ensures Valid()
      ensures c.title == input.title && c.mode == input.mode
      ensures c.id == old(nextConversationId) && c.id !in old(ConversationIds(tables.conversations))
      ensures clock == old(clock) + 1 && c.createdAt == clock && c.updatedAt == clock
      ensures tables == old(tables).(conversations := old(tables.conversations) + [c])
      ensures nextConversationId == old(nextConversationId) + 1
      ensures nextMessageId == old(nextMessageId) && nextParticipantId == old(nextParticipantId)
      ensures nextFileUploadId == old(nextFileUploadId)
      ensures Queries.GetConversation(tables.conversations, c.id) == Some(c)
      ensures |Queries.ListConversations(tables.conversations)| > 0 && Queries.ListConversations(tables.conversations)[0] == c
    {
      c := Conversation(nextConversationId, input.title, input.mode, clock + 1, clock + 1);
      CreateConversationStep(tables, nextConversationId, nextMessageId, nextParticipantId, nextFileUploadId, clock, c);
      clock := clock + 1;
      tables := tables.(conversations := tables.conversations + [c]);
      nextConversationId := nextConversationId + 1;
    }

    /** updateConversation: `updated_at` moves to the current time whether or not a title is
        given, and the title changes only when one is. A missing id is "not found" and
        changes nothing. */
    method UpdateConversation(input: UpdateConversationInput) returns (r: Result<Conversation, Error>)
      requires Valid()
      modifies this
      ensures Valid()
      ensures old(input.id !in ConversationIds(tables.conversations)) ==>
                r == Err(ConversationNotFound(input.id)) && unchanged(this)
      ensures old(input.id in ConversationIds(tables.conversations)) ==>
                && clock == old(clock) + 1
                && r == Ok(UpdatedConversation(old(Queries.GetConversation(tables.conversations, input.id)).value, input, clock))
                && r.value.updatedAt > r.value.createdAt
                && tables == old(tables).(conversations := Replace(old(tables.conversations), ConversationKey, r.value))
      ensures nextConversationId == old(nextConversationId) && nextMessageId == old(nextMessageId)
      ensures nextParticipantId == old(nextParticipantId) && nextFileUploadId == old(nextFileUploadId)
    {
      var row := Queries.GetConversation(tables.conversations, input.id);
      if row.None? {
        r := Err(ConversationNotFound(input.id));
        return;
      }
      var now := clock + 1;
      var updated := UpdatedConversation(row.value, input, now);
      UpdateConversationStep(tables, nextConversationId, nextMessageId, nextParticipantId, nextFileUploadId, clock,
                             row.value, updated);
      clock := now;
      tables := tables.(conversations := Replace(tables.conversations, ConversationKey, updated));
      r := Ok(updated);
    }

    /** deleteConversation: the tables become those of Db.DeleteConversation, whose lemmas say
        what goes and what stays. */
    method DeleteConversation(id: int)
      requires Valid()
      modifies this
      ensures Valid()
      ensures tables == Db.DeleteConversation(old(tables), id)
      ensures clock == old(clock)
      ensures nextConversationId == old(nextConversationId) && nextMessageId == old(nextMessageId)
      ensures nextParticipantId == old(nextParticipantId) && nextFileUploadId == old(nextFileUploadId)
    {
      DeleteConversationStep(tables, nextConversationId, nextMessageId, nextParticipantId, nextFileUploadId, clock, id);
      tables := Db.DeleteConversation(tables, id);
    }

    /** createMessage: a new message with the given conversation, role and content; an
        omitted model or author is null, and an author id of 0 counts as omitted. The
        conversation and a given author must exist. The id is drawn from the sequence before
        the foreign keys are checked, so a rejected insert still uses one up. */
    method CreateMessage(input: CreateMessageInput) returns (r: Result<Message, Error>)
      requires Valid()
      modifies this
      ensures Valid()
      ensures nextMessageId == old(nextMessageId) + 1
      ensures nextConversationId == old(nextConversationId) && nextParticipantId == old(nextParticipantId)
      ensures nextFileUploadId == old(nextFileUploadId)
      ensures r.Ok? <==> input.conversationId in ConversationIds(old(tables.conversations)) &&
                         (IdOrNull(input.participantId).Some? ==>
                            IdOrNull(input.participantId).value in ParticipantIds(old(tables.participants)))
      ensures input.conversationId !in ConversationIds(old(tables.conversations)) ==>
                r == Err(ForeignKeyViolation(MessageConversation))
      ensures input.conversationId in ConversationIds(old(tables.conversations)) &&
              IdOrNull(input.participantId).Some? &&
              IdOrNull(input.participantId).value !in ParticipantIds(old(tables.participants)) ==>
                r == Err(ForeignKeyViolation(MessageParticipant))
      ensures r.Err? ==> tables == old(tables) && clock == old(clock)
      ensures r.Ok? ==>
                && clock == old(clock) + 1
                && r.value == Message(old(nextMessageId), input.conversationId, input.role, input.content,
                                      ModelOrNull(input.aiModel), IdOrNull(input.participantId), clock)
                && r.value.id !in old(Keys(tables.messages, MessageKey))
                && tables == old(tables).(messages := old(tables.messages) + [r.value])
    {
      var id := nextMessageId;
      nextMessageId := nextMessageId + 1;
      IssuedLater(tables, nextConversationId, id, nextParticipantId, nextFileUploadId, clock,
                  nextConversationId, nextMessageId, nextParticipantId, nextFileUploadId, clock);
      var author := IdOrNull(input.participantId);
      if input.conversationId !in ConversationIds(tables.conversations) {
        r := Err(ForeignKeyViolation(MessageConversation));
        return;
      }
      if author.Some? && author.value !in ParticipantIds(tables.participants) {
        r := Err(ForeignKeyViolation(MessageParticipant));
        return;
      }
      var m := Message(id, input.conversationId, input.role, input.content, ModelOrNull(input.aiModel), author, clock + 1);
      CreateMessageStep(tables, nextConversationId, id, nextParticipantId, nextFileUploadId, clock, m);
      clock := clock + 1;
      tables := tables.(messages := tables.messages + [m]);
      r := Ok(m);
    }

    /** createParticipant: a new participant of an existing conversation. An omitted, null or
        empty description, avatar or model is stored as null, and an omitted activity flag as
        true. The id is drawn even when the foreign key rejects the insert. */
    method CreateParticipant(input: CreateParticipantInput) returns (r: Result<Participant, Error>)
      requires Valid()
      modifies this
      ensures Valid()
      ensures nextParticipantId == old(nextParticipantId) + 1
      ensures nextConversationId == old(nextConversationId) && nextMessageId == old(nextMessageId)
      ensures nextFileUploadId == old(nextFileUploadId)
      ensures r.Err? <==> input.conversationId !in ConversationIds(old(tables.conversations))
      ensures r.Err? ==> r.error == ForeignKeyViolation(ParticipantConversation) &&
                         tables == old(tables) && clock == old(clock)
      ensures r.Ok? ==>
                && clock == old(clock) + 1
                && r.value == Participant(old(nextParticipantId), input.conversationId, input.name,
                                          TextOrNull(input.description), input.role, TextOrNull(input.avatarUrl),
                                          ModelOrNull(input.aiModel), ActiveOrDefault(input.isActive), clock)
                && r.value.id !in old(ParticipantIds(tables.participants))
                && tables == old(tables).(participants := old(tables.participants) + [r.value])
    {
      var id := nextParticipantId;
      nextParticipantId := nextParticipantId + 1;
      IssuedLater(tables, nextConversationId, nextMessageId, id, nextFileUploadId, clock,
                  nextConversationId, nextMessageId, nextParticipantId, nextFileUploadId, clock);
      if input.conversationId !in ConversationIds(tables.conversations) {
        r := Err(ForeignKeyViolation(ParticipantConversation));
        return;
      }
      var p := Participant(id, input.conversationId, input.name, TextOrNull(input.description), input.role,
                           TextOrNull(input.avatarUrl), ModelOrNull(input.aiModel), ActiveOrDefault(input.isActive), clock + 1);
      CreateParticipantStep(tables, nextConversationId, nextMessageId, id, nextFileUploadId, clock, p);
      clock := clock + 1;
      tables := tables.(participants := tables.participants + [p]);
      r := Ok(p);
    }

    /** updateParticipant: the fields given in the input, and only those, are written; a
        missing id is "not found" and changes nothing. */
    method UpdateParticipant(input: UpdateParticipantInput) returns (r: Result<Participant, Error>)
      requires Valid()
      requires ChangesSomething(input)
      modifies this
      ensures Valid()
      ensures old(input.id !in ParticipantIds(tables.participants)) ==>
                r == Err(ParticipantNotFound(input.id)) && unchanged(this)
      ensures old(input.id in ParticipantIds(tables.participants)) ==>
                && r == Ok(UpdatedParticipant(old(Lookup(tables.participants, ParticipantKey, input.id)).value, input))
                && tables == old(tables).(participants := Replace(old(tables.participants), ParticipantKey, r.value))
      ensures clock == old(clock)
      ensures nextConversationId == old(nextConversationId) && nextMessageId == old(nextMessageId)
      ensures nextParticipantId == old(nextParticipantId) && nextFileUploadId == old(nextFileUploadId)
    {
      var row := Lookup(tables.participants, ParticipantKey, input.id);
      if row.None? {
        r := Err(ParticipantNotFound(input.id));
        return;
      }
      var updated := UpdatedParticipant(row.value, input);
      UpdateParticipantStep(tables, nextConversationId, nextMessageId, nextParticipantId, nextFileUploadId, clock,
                            row.value, updated);
      tables := tables.(participants := Replace(tables.participants, ParticipantKey, updated));
      r := Ok(updated);
    }

    /** deleteParticipant: the tables become those of Db.DeleteParticipant. */
    method DeleteParticipant(id: int)
      requires Valid()
      modifies this
      ensures Valid()
      ensures tables == Db.DeleteParticipant(old(tables), id)
      ensures clock == old(clock)
      ensures nextConversationId == old(nextConversationId) && nextMessageId == old(nextMessageId)
      ensures nextParticipantId == old(nextParticipantId) && nextFileUploadId == old(nextFileUploadId)
    {
      DeleteParticipantStep(tables, nextConversationId, nextMessageId, nextParticipantId, nextFileUploadId, clock, id);
      tables := Db.DeleteParticipant(tables, id);
    }

    /** createFileUpload: the file's metadata, exactly as given, under an existing
        conversation. The id is drawn even when the foreign key rejects the insert. */
    method CreateFileUpload(input: CreateFileUploadInput) returns (r: Result<FileUpload, Error>)
      requires Valid()
      modifies this
      ensures Valid()
      ensures nextFileUploadId == old(nextFileUploadId) + 1
      ensures nextConversationId == old(nextConversationId) && nextMessageId == old(nextMessageId)
      ensures nextParticipantId == old(nextParticipantId)
      ensures r.Err? <==> input.conversationId !in ConversationIds(old(tables.conversations))
      ensures r.Err? ==> r.error == ForeignKeyViolation(FileUploadConversation) &&
                         tables == old(tables) && clock == old(clock)
      ensures r.Ok? ==>
                && clock == old(clock) + 1
                && r.value == FileUpload(old(nextFileUploadId), input.conversationId, input.filename,
                                         input.filePath, input.fileSize, input.mimeType, clock)
                && r.value.id !in old(Keys(tables.fileUploads, FileUploadKey))
                && tables == old(tables).(fileUploads := old(tables.fileUploads) + [r.value])
    {
      var id := nextFileUploadId;
      nextFileUploadId := nextFileUploadId + 1;
      IssuedLater(tables, nextConversationId, nextMessageId, nextParticipantId, id, clock,
                  nextConversationId, nextMessageId, nextParticipantId, nextFileUploadId, clock);
      if input.conversationId !in ConversationIds(tables.conversations) {
        r := Err(ForeignKeyViolation(FileUploadConversation));
        return;
      }
      var f := FileUpload(id, input.conversationId, input.filename, input.filePath, input.fileSize, input.mimeType, clock + 1);
      CreateFileUploadStep(tables, nextConversationId, nextMessageId, nextParticipantId, id, clock, f);
      clock := clock + 1;
      tables := tables.(fileUploads := tables.fileUploads + [f]);
      r := Ok(f);
    }
  }
}
