/** The five inbound chat events of a connection, each one atomic step from
    a state to a new state plus the events it emits. `fault` stands for the
    handler's first store call throwing; the handler then catches it and
    answers the requesting connection with a generic failure. `now` is the
    store's clock. */
module ChatEvents {
  import opened Common
  import opened Sorting
  import opened ChatState

  // ---- getConversations ------------------------------------------------

  function UpdatedAt(e: ConvEntry): int {
    e.value.updatedAt
  }

  /** The documents of `ids` paired with their ids, in the same order. */
  function EntriesOf<T>(ids: seq<Id>, docs: map<Id, T>): (r: seq<Entry<T>>)
    requires forall k :: 0 <= k < |ids| ==> ids[k] in docs
    ensures |r| == |ids|
    ensures forall k :: 0 <= k < |ids| ==> r[k] == Entry(ids[k], docs[ids[k]])
  {
    if ids == [] then [] else [Entry(ids[0], docs[ids[0]])] + EntriesOf(ids[1..], docs)
  }

  /** Listing the documents of `selected` in ascending id order yields each
      selected document exactly once. */
  lemma EntriesFacts<T>(ids: seq<Id>, selected: set<Id>, docs: map<Id, T>)
    requires selected <= docs.Keys
    requires forall i, j :: 0 <= i < j < |ids| ==> ids[i] < ids[j]
    requires forall x :: x in ids <==> x in selected
    ensures forall k :: 0 <= k < |ids| ==> ids[k] in docs
    ensures Distinct(EntriesOf(ids, docs))
    ensures forall e :: e in EntriesOf(ids, docs) <==> e.id in selected && e.value == docs[e.id]
  {
    forall k | 0 <= k < |ids|
      ensures ids[k] in docs
    {
      assert ids[k] in ids;
    }
    var entries := EntriesOf(ids, docs);
    forall i, j | 0 <= i < j < |entries|
      ensures entries[i] != entries[j]
    {
      assert entries[i].id == ids[i] < ids[j] == entries[j].id;
    }
    forall e
      ensures e in entries <==> e.id in selected && e.value == docs[e.id]
    {
      if e in entries {
        var k :| 0 <= k < |entries| && entries[k] == e;
        assert ids[k] in ids;
      }
      if e.id in selected && e.value == docs[e.id] {
        var k :| 0 <= k < |ids| && ids[k] == e.id;
        assert entries[k] == e;
      }
    }
  }

  /** The store query `find({ participants: user }).sort({ updatedAt: -1 })`:
      exactly the conversations listing `user`, each once, most recently
      updated first (equal timestamps in ascending id order). */
  function ConversationsOf(convs: map<Id, Conversation>, user: Id): (r: seq<ConvEntry>)
    ensures SortedDesc(r, UpdatedAt)
    ensures Distinct(r)
    ensures forall e :: e in r <==>
      e.id in convs && e.value == convs[e.id] && user in e.value.participants
  {
    var selected := set c | c in convs && user in convs[c].participants;
    var ids := Ascending(selected);
    EntriesFacts(ids, selected, convs);
    SortDesc(EntriesOf(ids, convs), UpdatedAt)
  }

  /** `getConversations`: answers only the requesting connection; with no
      user id it answers "Unauthorized" without consulting the store. */
  function GetConversations(st: State, sid: Id, fault: bool): (r: Step)
    requires sid in st.sockets
    ensures r.state == st
    ensures |r.outbox| == 1
    ensures r.outbox[0].target == ToSocket(sid) && r.outbox[0].event == GetConversationsEvent
    ensures st.sockets[sid].userId.None? ==> r.outbox[0].payload == Failure("Unauthorized")
    ensures st.sockets[sid].userId.Some? && fault ==>
      r.outbox[0].payload == Failure("Failed to get conversations")
    ensures st.sockets[sid].userId.Some? && !fault ==>
      var u := st.sockets[sid].userId.value;
      && r.outbox[0].payload.ConversationList?
      && SortedDesc(r.outbox[0].payload.entries, UpdatedAt)
      && Distinct(r.outbox[0].payload.entries)
      && forall e :: e in r.outbox[0].payload.entries <==>
           e.id in st.conversations && e.value == st.conversations[e.id]
           && u in e.value.participants
  {
    var user := st.sockets[sid].userId;
    if user.None? then Reply(st, sid, GetConversationsEvent, Failure("Unauthorized"))
    else if fault then Reply(st, sid, GetConversationsEvent, Failure("Failed to get conversations"))
    else Reply(st, sid, GetConversationsEvent, ConversationList(ConversationsOf(st.conversations, user.value)))
  }

  // ---- newConversation -------------------------------------------------

  /** The `newConversation` payload; an absent or empty `name`/`avatar`
      is falsy. */
  datatype NewConversationRequest = NewConversationRequest(
    kind: ConvType,
    participants: seq<Id>,
    name: Option<string>,
    avatar: Option<string>)

  /** The de-duplication filter
      `{ type: "direct", participants: { $all: requested, $size: 2 } }`.
      `$all` with an empty list matches no document. The filter sees only
      the set of requested ids: it matches a two-entry direct conversation
      exactly when that set is non-empty and within the stored pair. */
  predicate MatchesDirect(c: Conversation, requested: seq<Id>): (r: bool)
    ensures r <==> IsDirectPair(c) && (set p | p in requested) != {} && (set p | p in requested) <= PairOf(c)
  {
    var ids := set p | p in requested;
    assert requested != [] <==> ids != {} by {
      if requested != [] {
        assert requested[0] in ids;
      }
    }
    assert IsDirectPair(c) ==> ((forall p :: p in requested ==> p in c.participants) <==> ids <= PairOf(c)) by {
      if IsDirectPair(c) {
        assert forall p :: p in c.participants <==> p in PairOf(c);
      }
    }
    && c.kind == Direct
    && |c.participants| == 2
    && |requested| > 0
    && forall p :: p in requested ==> p in c.participants
  }

  /** `findOne` with that filter; when several documents match, the model
      picks the one with the least id. */
  function FindDirect(convs: map<Id, Conversation>, requested: seq<Id>): (r: Option<Id>)
    ensures r.Some? ==> r.value in convs && MatchesDirect(convs[r.value], requested)
    ensures r.Some? ==> forall c :: c in convs && MatchesDirect(convs[c], requested) ==> r.value <= c
    ensures r.None? <==> forall c :: c in convs ==> !MatchesDirect(convs[c], requested)
  {
    var hits := set c | c in convs && MatchesDirect(convs[c], requested);
    assert forall c :: c in convs && MatchesDirect(convs[c], requested) ==> c in hits;
    if hits == {} then None else Some(Least(hits))
  }

  /** Every live connection whose user is listed joins `room`. */
  function JoinRoom(sockets: map<Id, Connection>, participants: seq<Id>, room: Id): (r: map<Id, Connection>)
    ensures r.Keys == sockets.Keys
    ensures forall s :: s in sockets ==>
      && r[s].userId == sockets[s].userId
      && r[s].rooms == if Listed(participants, sockets[s].userId) then sockets[s].rooms + {room}
                       else sockets[s].rooms
  {
    map s | s in sockets ::
      if Listed(participants, sockets[s].userId) then sockets[s].(rooms := sockets[s].rooms + {room})
      else sockets[s]
  }

  /** The request is answered with an existing direct conversation. */
  predicate Deduplicates(st: State, req: NewConversationRequest) {
    req.kind == Direct && exists c :: c in st.conversations && MatchesDirect(st.conversations[c], req.participants)
  }

  /** `newConversation`. A direct request that matches an existing direct
      conversation creates nothing and answers only the requester with
      `isNew = false`. Otherwise exactly one conversation is created under a
      fresh id, created by the requester, with `name`/`avatar` defaulting
      to ""; every live connection of a listed participant joins its room,
      no other connection's rooms change, and the `isNew = true` event goes
      to that room only, so it reaches exactly the participants' live
      connections: a requester who is not listed gets no answer. No user-id
      check precedes the creation. */
  function NewConversation(st: State, sid: Id, req: NewConversationRequest, now: nat, fault: bool): (r: Step)
    requires Valid(st) && sid in st.sockets
    ensures fault ==>
      r == Reply(st, sid, NewConversationEvent, Failure("Failed to create conversation"))
    ensures !fault && Deduplicates(st, req) ==>
      && r.state == st
      && |r.outbox| == 1
      && r.outbox[0].target == ToSocket(sid)
      && r.outbox[0].event == NewConversationEvent
      && r.outbox[0].payload.ConversationData?
      && !r.outbox[0].payload.isNew
      && var e := r.outbox[0].payload.entry;
         e.id in st.conversations && e.value == st.conversations[e.id]
         && MatchesDirect(e.value, req.participants)
    ensures !fault && !Deduplicates(st, req) ==>
      var id := st.nextId;
      && id !in st.conversations
      && r.state.conversations.Keys == st.conversations.Keys + {id}
      && (forall c :: c in st.conversations ==> r.state.conversations[c] == st.conversations[c])
      && var created := r.state.conversations[id];
         && created.kind == req.kind
         && created.participants == req.participants
         && created.name == OrElse(req.name, "")
         && created.avatar == OrElse(req.avatar, "")
         && created.createdBy == st.sockets[sid].userId
         && created.lastMessage == None
         && created.createdAt == now && created.updatedAt == now
         && r.state.messages == st.messages
         && r.state.nextId > id
         && r.state.sockets.Keys == st.sockets.Keys
         && (forall s :: s in st.sockets ==>
               && r.state.sockets[s].userId == st.sockets[s].userId
               && r.state.sockets[s].rooms ==
                    if Listed(req.participants, st.sockets[s].userId) then st.sockets[s].rooms + {id}
                    else st.sockets[s].rooms)
         && r.outbox == [Emit(ToRoom(id), NewConversationEvent, ConversationData(Entry(id, created), true))]
         && (forall s :: Receives(r.state.sockets, ToRoom(id), s) <==>
               s in st.sockets && Listed(req.participants, st.sockets[s].userId))
  {
    if fault then Reply(st, sid, NewConversationEvent, Failure("Failed to create conversation"))
    else
      var existing := if req.kind == Direct then FindDirect(st.conversations, req.participants) else None;
      if existing.Some? then
        var c := existing.value;
        Reply(st, sid, NewConversationEvent, ConversationData(Entry(c, st.conversations[c]), false))
      else
        var id := st.nextId;
        var created := Conversation(req.kind, req.participants, OrElse(req.name, ""), OrElse(req.avatar, ""),
                                    st.sockets[sid].userId, None, now, now);
        var sockets := JoinRoom(st.sockets, req.participants, id);
        Step(State(st.conversations[id := created], st.messages, sockets, id + 1),
             [Emit(ToRoom(id), NewConversationEvent, ConversationData(Entry(id, created), true))])
  }

  /** `newConversation` emits to the requester only, if to any single
      connection at all. */
  lemma NewConversationTargets(st: State, sid: Id, req: NewConversationRequest, now: nat, fault: bool)
    requires Valid(st) && sid in st.sockets
    ensures var r := NewConversation(st, sid, req, now, fault);
      forall e :: e in r.outbox && e.target.ToSocket? ==> e.target.socket == sid
  {
  }

  // ---- newMessage ------------------------------------------------------

  /** The `newMessage` payload; `sender` is whatever the client claims,
      and may be missing. */
  datatype NewMessageRequest = NewMessageRequest(
    conversationId: Id,
    sender: Option<Sender>,
    content: string,
    attachment: Option<string>)

  /** `newMessage`. Exactly one message is added under a fresh id; its
      sender is the connection's user id, never the payload's `sender.id`.
      The delivery goes to the room of `conversationId` and the
      conversation, if it exists, then points at the new message. Neither
      the conversation's existence nor the sender's participation is
      checked. A payload without `sender` throws while the delivery is
      built, after the message was stored: the requester gets the failure
      reply, nobody gets the delivery and no conversation changes. */
  function NewMessage(st: State, sid: Id, req: NewMessageRequest, now: nat, fault: bool): (r: Step)
    requires Valid(st) && sid in st.sockets
    ensures fault ==> r == Reply(st, sid, NewMessageEvent, Failure("Failed to send the message"))
    ensures !fault ==>
      var id := st.nextId;
      var cid := req.conversationId;
      && id !in st.messages
      && r.state.messages.Keys == st.messages.Keys + {id}
      && (forall m :: m in st.messages ==> r.state.messages[m] == st.messages[m])
      && r.state.messages[id].conversationId == cid
      && r.state.messages[id].senderId == st.sockets[sid].userId
      && r.state.messages[id].content == req.content
      && r.state.messages[id].attachment == req.attachment
      && r.state.messages[id].createdAt == now
      && r.state.sockets == st.sockets
      && r.state.nextId > id
      && r.state.conversations.Keys == st.conversations.Keys
      && (forall c :: c in st.conversations && c != cid ==> r.state.conversations[c] == st.conversations[c])
    ensures !fault && req.sender.Some? ==>
      var id := st.nextId;
      var cid := req.conversationId;
      && (cid in st.conversations ==>
            r.state.conversations[cid] == st.conversations[cid].(lastMessage := Some(id), updatedAt := now))
      && r.outbox == [Emit(ToRoom(cid), NewMessageEvent,
                           MessageDelivered(Delivery(id, req.content, req.sender.value, req.attachment, now, cid)))]
    ensures !fault && req.sender.None? ==>
      && r.state.conversations == st.conversations
      && r.outbox == [Emit(ToSocket(sid), NewMessageEvent, Failure("Failed to send the message"))]
  {
    if fault then Reply(st, sid, NewMessageEvent, Failure("Failed to send the message"))
    else
      var id := st.nextId;
      var cid := req.conversationId;
      var message := Message(cid, st.sockets[sid].userId, req.content, req.attachment, now);
      var stored := State(st.conversations, st.messages[id := message], st.sockets, id + 1);
      if req.sender.None? then Reply(stored, sid, NewMessageEvent, Failure("Failed to send the message"))
      else
        var convs := if cid in st.conversations
                     then st.conversations[cid := st.conversations[cid].(lastMessage := Some(id), updatedAt := now)]
                     else st.conversations;
        Step(stored.(conversations := convs),
             [Emit(ToRoom(cid), NewMessageEvent,
                   MessageDelivered(Delivery(id, req.content, req.sender.value, req.attachment, now, cid)))])
  }

  /** `newMessage` emits to the requester only, if to any single
      connection at all. */
  lemma NewMessageTargets(st: State, sid: Id, req: NewMessageRequest, now: nat, fault: bool)
    requires Valid(st) && sid in st.sockets
    ensures var r := NewMessage(st, sid, req, now, fault);
      forall e :: e in r.outbox && e.target.ToSocket? ==> e.target.socket == sid
  {
  }

  // ---- getMessages -----------------------------------------------------

  /** A user document as the sender population selects it. */
  datatype Profile = Profile(name: string, avatar: string)

  /** An entry of a message list. */
  type MessageEntry = Entry<Message>

  function CreatedAt(e: MessageEntry): int {
    e.value.createdAt
  }

  /** `find({ conversationId }).sort({ createdAt: -1 })`: exactly the
      messages of `cid`, each once, newest first. */
  function MessagesOf(msgs: map<Id, Message>, cid: Id): (r: seq<MessageEntry>)
    ensures SortedDesc(r, CreatedAt)
    ensures Distinct(r)
    ensures forall e :: e in r <==>
      e.id in msgs && e.value == msgs[e.id] && e.value.conversationId == cid
  {
    var selected := set m | m in msgs && msgs[m].conversationId == cid;
    var ids := Ascending(selected);
    EntriesFacts(ids, selected, msgs);
    SortDesc(EntriesOf(ids, msgs), CreatedAt)
  }

  /** The populated sender of a message is found. */
  predicate SenderKnown(m: Message, directory: map<Id, Profile>) {
    m.senderId.Some? && m.senderId.value in directory
  }

  /** The view of one message: `id` is its `_id`, `sender` its populated
      sender. */
  function ViewOf(e: MessageEntry, directory: map<Id, Profile>): MessageView
    requires SenderKnown(e.value, directory)
  {
    var p := directory[e.value.senderId.value];
    MessageView(e.id, e.value, Sender(e.value.senderId.value, p.name, p.avatar))
  }

  /** Maps every entry to its view, or fails when a sender is not found
      (the handler then dereferences a missing sender and throws). */
  function Populate(entries: seq<MessageEntry>, directory: map<Id, Profile>): (r: Option<seq<MessageView>>)
    ensures r.Some? <==> forall k :: 0 <= k < |entries| ==> SenderKnown(entries[k].value, directory)
    ensures r.Some? ==>
      && |r.value| == |entries|
      && forall k :: 0 <= k < |entries| ==> r.value[k] == ViewOf(entries[k], directory)
  {
    if entries == [] then Some([])
    else if !SenderKnown(entries[0].value, directory) then None
    else
      match Populate(entries[1..], directory)
      case None =>
        assert !forall k :: 0 <= k < |entries| ==> SenderKnown(entries[k].value, directory) by {
          var k :| 0 <= k < |entries| - 1 && !SenderKnown(entries[1..][k].value, directory);
          assert entries[1..][k] == entries[k + 1];
        }
        None
      case Some(rest) =>
        Some([ViewOf(entries[0], directory)] + rest)
  }

  /** Every message of `cid` has a known sender. */
  predicate SendersKnown(msgs: map<Id, Message>, cid: Id, directory: map<Id, Profile>) {
    forall m :: m in msgs && msgs[m].conversationId == cid ==> SenderKnown(msgs[m], directory)
  }

  function ViewCreatedAt(v: MessageView): int {
    v.message.createdAt
  }

  /** `getMessages`: answers only the requesting connection with exactly the
      messages of `conversationId`, newest first, each with `id` equal to
      its `_id` and its populated sender. A message whose sender cannot be
      populated makes the whole request fail. */
  function GetMessages(st: State, sid: Id, cid: Id, directory: map<Id, Profile>, fault: bool): (r: Step)
    requires sid in st.sockets
    ensures r.state == st
    ensures |r.outbox| == 1
    ensures r.outbox[0].target == ToSocket(sid) && r.outbox[0].event == GetMessagesEvent
    ensures fault || !SendersKnown(st.messages, cid, directory) ==>
      r.outbox[0].payload == Failure("Failed to send the message")
    ensures !fault && SendersKnown(st.messages, cid, directory) ==>
      && r.outbox[0].payload.MessageList?
      && var views := r.outbox[0].payload.views;
      && SortedDesc(views, ViewCreatedAt)
      && (forall i, j :: 0 <= i < j < |views| ==> views[i].id != views[j].id)
      && forall v :: v in views <==>
           && v.id in st.messages && v.message == st.messages[v.id]
           && v.message.conversationId == cid
           && SenderKnown(v.message, directory)
           && v.sender == Sender(v.message.senderId.value, directory[v.message.senderId.value].name,
                                 directory[v.message.senderId.value].avatar)
  {
    if fault then Reply(st, sid, GetMessagesEvent, Failure("Failed to send the message"))
    else
      var entries := MessagesOf(st.messages, cid);
      var views := Populate(entries, directory);
      if views.None? then
        assert !SendersKnown(st.messages, cid, directory) by {
          var k :| 0 <= k < |entries| && !SenderKnown(entries[k].value, directory);
          assert entries[k] in entries;
        }
        Reply(st, sid, GetMessagesEvent, Failure("Failed to send the message"))
      else
        ViewsFacts(st.messages, cid, directory, entries, views.value);
        Reply(st, sid, GetMessagesEvent, MessageList(views.value))
  }

  lemma ViewsFacts(msgs: map<Id, Message>, cid: Id, directory: map<Id, Profile>,
                   entries: seq<MessageEntry>, views: seq<MessageView>)
    requires SortedDesc(entries, CreatedAt) && Distinct(entries)
    requires forall e :: e in entries <==> e.id in msgs && e.value == msgs[e.id] && e.value.conversationId == cid
    requires |views| == |entries|
    requires forall k :: 0 <= k < |entries| ==> SenderKnown(entries[k].value, directory)
    requires forall k :: 0 <= k < |entries| ==> views[k] == ViewOf(entries[k], directory)
    ensures SendersKnown(msgs, cid, directory)
    ensures SortedDesc(views, ViewCreatedAt)
    ensures forall i, j :: 0 <= i < j < |views| ==> views[i].id != views[j].id
    ensures forall v :: v in views <==>
      && v.id in msgs && v.message == msgs[v.id]
      && v.message.conversationId == cid
      && SenderKnown(v.message, directory)
      && v.sender == Sender(v.message.senderId.value, directory[v.message.senderId.value].name,
                            directory[v.message.senderId.value].avatar)
  {
    forall m | m in msgs && msgs[m].conversationId == cid
      ensures SenderKnown(msgs[m], directory)
    {
      var e := Entry(m, msgs[m]);
      assert e in entries;
      var k :| 0 <= k < |entries| && entries[k] == e;
    }
    forall i, j | 0 <= i < j < |views|
      ensures views[i].id != views[j].id
    {
      assert entries[i].id == views[i].id && entries[j].id == views[j].id;
      assert entries[i] in entries && entries[j] in entries;
    }
    forall v
      ensures v in views <==>
        && v.id in msgs && v.message == msgs[v.id]
        && v.message.conversationId == cid
        && SenderKnown(v.message, directory)
        && v.sender == Sender(v.message.senderId.value, directory[v.message.senderId.value].name,
                              directory[v.message.senderId.value].avatar)
    {
      if v in views {
        var k :| 0 <= k < |views| && views[k] == v;
        assert entries[k] in entries;
      }
      if && v.id in msgs && v.message == msgs[v.id]
         && v.message.conversationId == cid
         && SenderKnown(v.message, directory)
         && v.sender == Sender(v.message.senderId.value, directory[v.message.senderId.value].name,
                               directory[v.message.senderId.value].avatar)
      {
        var e := Entry(v.id, v.message);
        assert e in entries;
        var k :| 0 <= k < |entries| && entries[k] == e;
        assert views[k] == v;
      }
    }
  }

  // ---- deleteConversation ----------------------------------------------

  /** The messages that do not belong to `cid`. */
  function WithoutConversation(msgs: map<Id, Message>, cid: Id): (r: map<Id, Message>)
    ensures forall m :: m in r <==> m in msgs && msgs[m].conversationId != cid
    ensures forall m :: m in r ==> r[m] == msgs[m]
  {
    map m | m in msgs && msgs[m].conversationId != cid :: msgs[m]
  }

  /** `deleteConversation`. It fails towards the requester only, changing
      nothing, when the connection has no user id, when the conversation
      does not exist, or when the user is not a participant. Otherwise the
      conversation and all of its messages are gone and nothing else is
      removed; the requester gets the success reply, every other
      connection in the room (other connections of the same user included)
      gets `conversationDeleted` naming the user, and only the requester's
      connection leaves the room. */
  function DeleteConversation(st: State, sid: Id, cid: Id, fault: bool): (r: Step)
    requires sid in st.sockets
    ensures st.sockets[sid].userId.None? ==>
      r == Reply(st, sid, DeleteConversationEvent, Failure("Unauthorized"))
    ensures st.sockets[sid].userId.Some? && fault ==>
      r == Reply(st, sid, DeleteConversationEvent, Failure("Failed to delete conversation"))
    ensures st.sockets[sid].userId.Some? && !fault && cid !in st.conversations ==>
      r == Reply(st, sid, DeleteConversationEvent, Failure("Conversation not found"))
    ensures st.sockets[sid].userId.Some? && !fault && cid in st.conversations
            && !Listed(st.conversations[cid].participants, st.sockets[sid].userId) ==>
      r == Reply(st, sid, DeleteConversationEvent, Failure("Unauthorized to delete this conversation"))
    ensures !fault && cid in st.conversations && Listed(st.conversations[cid].participants, st.sockets[sid].userId) ==>
      && r.state.conversations == st.conversations - {cid}
      && (forall m :: m in r.state.messages ==> r.state.messages[m].conversationId != cid)
      && (forall m :: m in st.messages && st.messages[m].conversationId != cid ==>
            m in r.state.messages && r.state.messages[m] == st.messages[m])
      && (forall m :: m in r.state.messages ==> m in st.messages)
      && r.state.nextId == st.nextId
      && r.state.sockets == st.sockets[sid := st.sockets[sid].(rooms := st.sockets[sid].rooms - {cid})]
      && r.outbox == [
           Emit(ToSocket(sid), DeleteConversationEvent, Deleted(cid, "Conversation deleted successfully")),
           Emit(ToRoomExcept(cid, sid), ConversationDeletedEvent, DeletedByPeer(cid, st.sockets[sid].userId.value))]
  {
    var user := st.sockets[sid].userId;
    if user.None? then Reply(st, sid, DeleteConversationEvent, Failure("Unauthorized"))
    else if fault then Reply(st, sid, DeleteConversationEvent, Failure("Failed to delete conversation"))
    else if cid !in st.conversations then Reply(st, sid, DeleteConversationEvent, Failure("Conversation not found"))
    else if !Listed(st.conversations[cid].participants, user) then
      Reply(st, sid, DeleteConversationEvent, Failure("Unauthorized to delete this conversation"))
    else
      var conn := st.sockets[sid];
      Step(State(st.conversations - {cid}, WithoutConversation(st.messages, cid),
                 st.sockets[sid := conn.(rooms := conn.rooms - {cid})], st.nextId),
           [Emit(ToSocket(sid), DeleteConversationEvent, Deleted(cid, "Conversation deleted successfully")),
            Emit(ToRoomExcept(cid, sid), ConversationDeletedEvent, DeletedByPeer(cid, user.value))])
  }

  /** `deleteConversation` emits to the requester only, if to any single
      connection at all. */
  lemma DeleteConversationTargets(st: State, sid: Id, cid: Id, fault: bool)
    requires sid in st.sockets
    ensures var r := DeleteConversation(st, sid, cid, fault);
      forall e :: e in r.outbox && e.target.ToSocket? ==> e.target.socket == sid
  {
  }

  // ---- dispatch ----------------------------------------------------------

  /** An inbound event with its payload. */
  datatype Inbound =
    | GetConversationsCall
    | NewConversationCall(conversation: NewConversationRequest)
    | NewMessageCall(message: NewMessageRequest)
    | GetMessagesCall(conversationId: Id)
    | DeleteConversationCall(conversationId: Id)

  /** `registerChatEvents`: the handler registered under each event name.
      `directory` holds the user documents the sender population reads. */
  function Dispatch(st: State, sid: Id, ev: Inbound, now: nat, directory: map<Id, Profile>, fault: bool): (r: Step)
    requires Valid(st) && sid in st.sockets
    ensures ev.GetConversationsCall? || ev.GetMessagesCall? ==> r.state == st
    ensures forall e :: e in r.outbox && e.target.ToSocket? ==> e.target.socket == sid
  {
    match ev
    case GetConversationsCall => GetConversations(st, sid, fault)
    case NewConversationCall(req) =>
      NewConversationTargets(st, sid, req, now, fault);
      NewConversation(st, sid, req, now, fault)
    case NewMessageCall(req) =>
      NewMessageTargets(st, sid, req, now, fault);
      NewMessage(st, sid, req, now, fault)
    case GetMessagesCall(cid) => GetMessages(st, sid, cid, directory, fault)
    case DeleteConversationCall(cid) =>
      DeleteConversationTargets(st, sid, cid, fault);
      DeleteConversation(st, sid, cid, fault)
  }
}
