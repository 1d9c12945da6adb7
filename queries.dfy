/** The read-only handlers, as functions of the tables: getConversation, getParticipants,
    getMessages, and the order in which conversations are listed. */
module Queries {
  import opened Wrappers
  import opened Schema
  import opened Seqs
  import opened Db

  /** getConversation: the row with the id, or null when there is none (not an error). */
  function GetConversation(cs: seq<Conversation>, id: int): (r: Option<Conversation>)
    ensures r.Some? <==> id in ConversationIds(cs)
    ensures r.Some? ==> r.value in cs && r.value.id == id
  {
    Lookup(cs, ConversationKey, id)
  }

  /** Among several conversations, exactly the one with the id is returned, unchanged. */
  lemma GetConversationFinds(cs: seq<Conversation>, c: Conversation)
    requires Increasing(cs, ConversationKey) && c in cs
    ensures GetConversation(cs, c.id) == Some(c)
  {
    LookupFinds(cs, ConversationKey, c);
  }

  /** getParticipants: every participant of the conversation, with all its fields, and no
      other. No order is promised; the model returns table order. */
  function GetParticipants(ps: seq<Participant>, cid: int): (r: seq<Participant>)
    ensures forall p :: p in r <==> p in ps && p.conversationId == cid
    ensures Increasing(ps, ParticipantKey) ==> Increasing(r, ParticipantKey)
  {
    var inConversation := (p: Participant) => p.conversationId == cid;
    WhereKeepsIncreasing(ps, inConversation, ParticipantKey);
    Where(ps, inConversation)
  }

  /** The messages of a conversation, in table order (the WHERE clause of getMessages). */
  function MessagesIn(ms: seq<Message>, cid: int): (r: seq<Message>)
    ensures forall m :: m in r <==> m in ms && m.conversationId == cid
    ensures Increasing(ms, MessageTime) ==> Increasing(r, MessageTime)
  {
    var inConversation := (m: Message) => m.conversationId == cid;
    WhereKeepsIncreasing(ms, inConversation, MessageTime);
    Where(ms, inConversation)
  }

  /** The messages of a conversation ordered by creation time, newest first
      (ORDER BY created_at DESC). */
  function Timeline(ms: seq<Message>, cid: int): (r: seq<Message>)
    ensures forall m :: m in r <==> m in ms && m.conversationId == cid
    ensures multiset(r) == multiset(MessagesIn(ms, cid))
    ensures |r| == |MessagesIn(ms, cid)|
    ensures Descending(r, MessageTime)
  {
    var rows := MessagesIn(ms, cid);
    SortDescSorts(rows, MessageTime);
    var r := SortDesc(rows, MessageTime);
    assert forall m :: m in r <==> m in multiset(rows);
    r
  }

  /** In a well-formed store no two messages share a creation time, so the timeline is
      strictly newest first. */
  lemma TimelineStrict(ms: seq<Message>, cid: int)
    requires Increasing(ms, MessageTime)
    ensures StrictlyDescending(Timeline(ms, cid), MessageTime)
  {
    SortIncreasing(MessagesIn(ms, cid), MessageTime);
  }

  /** The timeline is THE newest-first listing: any strictly descending sequence of exactly the
      conversation's messages is equal to it. */
  lemma TimelineIsTheOrder(ms: seq<Message>, cid: int, listing: seq<Message>)
    requires Increasing(ms, MessageTime)
    requires StrictlyDescending(listing, MessageTime)
    requires forall m :: m in listing <==> m in ms && m.conversationId == cid
    ensures listing == Timeline(ms, cid)
  {
    TimelineStrict(ms, cid);
    StrictlyDescendingUnique(listing, Timeline(ms, cid), MessageTime);
  }

  function LimitOf(input: GetMessagesInput): Option<nat>
    requires ValidPagination(input)
  {
    if input.limit.Some? then Some(input.limit.value as nat) else None
  }

  function OffsetOf(input: GetMessagesInput): Option<nat>
    requires ValidPagination(input)
  {
    if input.offset.Some? then Some(input.offset.value as nat) else None
  }

  /** getMessages: the conversation's messages newest first, skipping `offset` of them and
      keeping at most `limit`, i.e. the slice [offset, offset + limit) of the timeline. */
  function GetMessages(ms: seq<Message>, input: GetMessagesInput): (r: seq<Message>)
    requires ValidPagination(input)
    ensures forall m :: m in r ==> m in ms && m.conversationId == input.conversationId
    ensures Descending(r, MessageTime)
    ensures |r| == PageLength(|MessagesIn(ms, input.conversationId)|, LimitOf(input), OffsetOf(input))
    ensures forall i :: 0 <= i < |r| ==>
              r[i] == Timeline(ms, input.conversationId)[PageStart(OffsetOf(input)) + i]
  {
    var all := Timeline(ms, input.conversationId);
    PaginateKeepsDescending(all, LimitOf(input), OffsetOf(input), MessageTime);
    Paginate(all, LimitOf(input), OffsetOf(input))
  }

  /** With a limit and no offset, the page holds the newest messages: every message of the
      conversation left off the page is older than every message on it. */
  lemma LimitKeepsNewest(ms: seq<Message>, input: GetMessagesInput, x: Message, m: Message)
    requires Increasing(ms, MessageTime) && ValidPagination(input) && input.offset.None?
    requires x in GetMessages(ms, input)
    requires m in ms && m.conversationId == input.conversationId && m !in GetMessages(ms, input)
    ensures m.createdAt < x.createdAt
  {
    var all := Timeline(ms, input.conversationId);
    var page := GetMessages(ms, input);
    TimelineStrict(ms, input.conversationId);
    var i :| 0 <= i < |page| && page[i] == x;
    var k :| 0 <= k < |all| && all[k] == m;
    assert all[i] == x;
    assert forall p :: 0 <= p < |page| ==> all[p] != m;
    assert k >= |page|;
  }

  /** A conversation with no messages yields an empty page, whatever the limit and offset. */
  lemma NoMessagesEmptyPage(ms: seq<Message>, input: GetMessagesInput)
    requires ValidPagination(input)
    requires forall m :: m in ms ==> m.conversationId != input.conversationId
    ensures GetMessages(ms, input) == []
  {
    var rows := MessagesIn(ms, input.conversationId);
    assert multiset(rows) == multiset{};
  }

  /** The listing of conversations: most recently updated first (ORDER BY updated_at DESC). */
  function ListConversations(cs: seq<Conversation>): (r: seq<Conversation>)
    ensures multiset(r) == multiset(cs)
    ensures Descending(r, ConversationTouched)
  {
    SortDescSorts(cs, ConversationTouched);
    SortDesc(cs, ConversationTouched)
  }

  /** The conversation updated last comes first in the listing. */
  lemma ListConversationsNewestFirst(cs: seq<Conversation>, c: Conversation)
    requires c in cs
    requires forall d :: d in cs && d != c ==> d.updatedAt < c.updatedAt
    ensures |ListConversations(cs)| > 0 && ListConversations(cs)[0] == c
  {
    var r := ListConversations(cs);
    assert c in multiset(r);
    var i :| 0 <= i < |r| && r[i] == c;
    assert r[0] in multiset(cs);
    assert ConversationTouched(r[0]) >= ConversationTouched(r[i]);
  }
}
