/** Properties relating several chat steps: the state invariant every
    transition keeps, the unordered-pair behaviour of direct conversations,
    and what later reads observe after a send or a delete. */
module ChatProperties {
  import opened Common
  import opened ChatState
  import opened ChatEvents
  import Session

  // ---- direct conversations as unordered pairs -------------------------

  /** For two distinct users the de-duplication filter matches exactly the
      direct two-entry conversations between those two users, in either
      order. */
  lemma {:induction false} DirectMatchIsUnorderedPair(c: Conversation, a: Id, b: Id)
    requires a != b
    ensures MatchesDirect(c, [a, b]) <==> IsDirectPair(c) && PairOf(c) == {a, b}
  {
    if MatchesDirect(c, [a, b]) {
      assert a in c.participants && b in c.participants;
      assert PairOf(c) == {a, b};
    }
    if IsDirectPair(c) && PairOf(c) == {a, b} {
      assert a in PairOf(c) && b in PairOf(c);
      assert forall p :: p in [a, b] ==> p in c.participants;
    }
  }

  /** Asking for `[a, b]` or for `[b, a]` finds the same conversation. */
  lemma {:induction false} FindDirectIgnoresOrder(convs: map<Id, Conversation>, a: Id, b: Id)
    ensures FindDirect(convs, [a, b]) == FindDirect(convs, [b, a])
  {
    forall c | c in convs
      ensures MatchesDirect(convs[c], [a, b]) <==> MatchesDirect(convs[c], [b, a])
    {
      assert forall p :: p in [a, b] <==> p in [b, a];
    }
    var r1 := FindDirect(convs, [a, b]);
    var r2 := FindDirect(convs, [b, a]);
    if r1.Some? && r2.Some? {
      assert r1.value <= r2.value && r2.value <= r1.value;
    }
  }

  /** Under the invariant, a request for two distinct users matches at most
      one conversation. */
  lemma {:induction false} DirectMatchUnique(st: State, a: Id, b: Id, c1: Id, c2: Id)
    requires Invariant(st) && a != b
    requires c1 in st.conversations && MatchesDirect(st.conversations[c1], [a, b])
    requires c2 in st.conversations && MatchesDirect(st.conversations[c2], [a, b])
    ensures c1 == c2
  {
    DirectMatchIsUnorderedPair(st.conversations[c1], a, b);
    DirectMatchIsUnorderedPair(st.conversations[c2], a, b);
  }

  /** A direct request for `[a, b]` that creates a conversation, followed by
      a direct request for `[b, a]` from any connection, returns that same
      conversation with `isNew = false` and changes nothing. */
  lemma {:induction false} RepeatedDirectRequestReturnsSame(
    st: State, s1: Id, s2: Id, a: Id, b: Id,
    name1: Option<string>, avatar1: Option<string>, name2: Option<string>, avatar2: Option<string>,
    now1: nat, now2: nat)
    requires Valid(st) && s1 in st.sockets && s2 in st.sockets
    requires !Deduplicates(st, NewConversationRequest(Direct, [a, b], name1, avatar1))
    ensures var first := NewConversation(st, s1, NewConversationRequest(Direct, [a, b], name1, avatar1), now1, false);
      var second := NewConversation(first.state, s2, NewConversationRequest(Direct, [b, a], name2, avatar2), now2, false);
      && first.outbox[0].payload.isNew
      && second.state == first.state
      && second.outbox == [Emit(ToSocket(s2), NewConversationEvent,
                                ConversationData(Entry(st.nextId, first.state.conversations[st.nextId]), false))]
  {
    var req1 := NewConversationRequest(Direct, [a, b], name1, avatar1);
    var first := NewConversation(st, s1, req1, now1, false);
    var id := st.nextId;
    var convs := first.state.conversations;
    assert MatchesDirect(convs[id], [b, a]);
    forall c | c in convs && c != id
      ensures !MatchesDirect(convs[c], [b, a])
    {
      assert forall p :: p in [a, b] <==> p in [b, a];
      assert convs[c] == st.conversations[c];
      assert !MatchesDirect(st.conversations[c], [a, b]);
    }
    var found := FindDirect(convs, [b, a]);
    assert found == Some(id);
  }

  // ---- the invariant -----------------------------------------------------

  /** Keeping every conversation's kind and participants, and adding none,
      keeps the direct pairs unique. */
  lemma {:induction false} SameShapeKeepsPairs(before: map<Id, Conversation>, after: map<Id, Conversation>)
    requires DirectPairsUnique(before)
    requires after.Keys <= before.Keys
    requires forall c :: c in after ==>
      after[c].kind == before[c].kind && after[c].participants == before[c].participants
    ensures DirectPairsUnique(after)
  {
    forall x, y | x in after && y in after && x != y && IsDirectPair(after[x]) && IsDirectPair(after[y])
      ensures PairOf(after[x]) != PairOf(after[y])
    {
      assert PairOf(after[x]) == PairOf(before[x]) && PairOf(after[y]) == PairOf(before[y]);
    }
  }

  /** A direct two-entry conversation whose pair is that of a two-entry
      request is matched by the request. */
  lemma SharedPairMatches(c: Conversation, requested: seq<Id>)
    requires IsDirectPair(c) && |requested| == 2
    ensures PairOf(c) == {requested[0], requested[1]} ==> MatchesDirect(c, requested)
  {
    if PairOf(c) == {requested[0], requested[1]} {
      assert requested[0] in PairOf(c) && requested[1] in PairOf(c);
      assert forall p :: p in requested ==> p == requested[0] || p == requested[1];
    }
  }

  /** `newConversation` keeps the invariant: a new direct two-party
      conversation is only created when no existing one covers its pair. */
  lemma {:induction false} NewConversationKeepsInvariant(st: State, sid: Id, req: NewConversationRequest, now: nat, fault: bool)
    requires Invariant(st) && sid in st.sockets
    ensures Invariant(NewConversation(st, sid, req, now, fault).state)
  {
    var r := NewConversation(st, sid, req, now, fault);
    if !fault && !Deduplicates(st, req) {
      var id := st.nextId;
      var convs := r.state.conversations;
      forall x, y | x in convs && y in convs && x != y && IsDirectPair(convs[x]) && IsDirectPair(convs[y])
        ensures PairOf(convs[x]) != PairOf(convs[y])
      {
        if x != id && y != id {
          assert convs[x] == st.conversations[x] && convs[y] == st.conversations[y];
        } else {
          var prior := if x == id then y else x;
          assert convs[prior] == st.conversations[prior];
          assert convs[id].participants == req.participants;
          SharedPairMatches(st.conversations[prior], req.participants);
        }
      }
      assert Valid(r.state) by {
        forall s, room | s in r.state.sockets && room in r.state.sockets[s].rooms
          ensures room < r.state.nextId
        {
          assert s in st.sockets;
        }
      }
    }
  }

  /** `newMessage` keeps the invariant. */
  lemma NewMessageKeepsInvariant(st: State, sid: Id, req: NewMessageRequest, now: nat, fault: bool)
    requires Invariant(st) && sid in st.sockets
    ensures Invariant(NewMessage(st, sid, req, now, fault).state)
  {
    var r := NewMessage(st, sid, req, now, fault);
    SameShapeKeepsPairs(st.conversations, r.state.conversations);
  }

  /** `deleteConversation` keeps the invariant. */
  lemma DeleteConversationKeepsInvariant(st: State, sid: Id, cid: Id, fault: bool)
    requires Invariant(st) && sid in st.sockets
    ensures Invariant(DeleteConversation(st, sid, cid, fault).state)
  {
    var r := DeleteConversation(st, sid, cid, fault);
    SameShapeKeepsPairs(st.conversations, r.state.conversations);
    assert Valid(r.state) by {
      forall s, room | s in r.state.sockets && room in r.state.sockets[s].rooms
        ensures room < r.state.nextId
      {
        assert s in st.sockets;
      }
    }
  }

  /** Every inbound event keeps the invariant. */
  lemma DispatchKeepsInvariant(st: State, sid: Id, ev: Inbound, now: nat, directory: map<Id, Profile>, fault: bool)
    requires Invariant(st) && sid in st.sockets
    ensures Invariant(Dispatch(st, sid, ev, now, directory, fault).state)
  {
    match ev
    case GetConversationsCall =>
    case NewConversationCall(req) => NewConversationKeepsInvariant(st, sid, req, now, fault);
    case NewMessageCall(req) => NewMessageKeepsInvariant(st, sid, req, now, fault);
    case GetMessagesCall(cid) =>
    case DeleteConversationCall(cid) => DeleteConversationKeepsInvariant(st, sid, cid, fault);
  }

  /** Connecting and disconnecting keep the invariant. */
  lemma ConnectionKeepsInvariant(st: State, user: Id, lookupFails: bool, sid: Id)
    requires Invariant(st)
    ensures Invariant(Session.OnConnection(st, user, lookupFails))
    ensures Invariant(Session.Disconnect(st, sid))
  {
  }

  // ---- what later reads observe ------------------------------------------

  /** The peers notified of a deletion are the same whether the room is read
      before or after the deleting connection leaves it: every connection
      in the room except the deleting one. */
  lemma {:induction false} DeleteNotifiesSamePeers(st: State, sid: Id, cid: Id, s: Id)
    requires sid in st.sockets
    requires cid in st.conversations && Listed(st.conversations[cid].participants, st.sockets[sid].userId)
    ensures var r := DeleteConversation(st, sid, cid, false);
      && (Receives(r.state.sockets, ToRoomExcept(cid, sid), s) <==> Receives(st.sockets, ToRoomExcept(cid, sid), s))
      && (Receives(st.sockets, ToRoomExcept(cid, sid), s) <==>
            s in st.sockets && cid in st.sockets[s].rooms && s != sid)
  {
    var r := DeleteConversation(st, sid, cid, false);
    if s in st.sockets && s != sid {
      assert r.state.sockets[s] == st.sockets[s];
    }
  }

  /** After a successful delete, fetching the conversation's messages
      returns an empty list. */
  lemma {:induction false} DeletedConversationHasNoMessages(st: State, sid: Id, cid: Id, reader: Id, directory: map<Id, Profile>)
    requires sid in st.sockets
    requires cid in st.conversations && Listed(st.conversations[cid].participants, st.sockets[sid].userId)
    ensures var after := DeleteConversation(st, sid, cid, false).state;
      reader in after.sockets ==>
        GetMessages(after, reader, cid, directory, false).outbox[0].payload == MessageList([])
  {
    var after := DeleteConversation(st, sid, cid, false).state;
    if reader in after.sockets {
      assert SendersKnown(after.messages, cid, directory);
    }
  }

  /** A message sent to a conversation is returned by the next fetch of that
      conversation's messages, under its id and with the stored content;
      this holds even when a missing `sender` made the send answer with a
      failure, because the message was stored first. */
  lemma {:induction false} SentMessageIsFetched(st: State, sid: Id, req: NewMessageRequest, now: nat,
                                                reader: Id, directory: map<Id, Profile>)
    requires Valid(st) && sid in st.sockets && reader in st.sockets
    requires SendersKnown(NewMessage(st, sid, req, now, false).state.messages, req.conversationId, directory)
    ensures var after := NewMessage(st, sid, req, now, false).state;
      var reply := GetMessages(after, reader, req.conversationId, directory, false).outbox[0].payload;
      && reply.MessageList?
      && exists k :: 0 <= k < |reply.views| && reply.views[k].id == st.nextId
           && reply.views[k].message.content == req.content
           && reply.views[k].message.senderId == st.sockets[sid].userId
  {
    var after := NewMessage(st, sid, req, now, false).state;
    var id := st.nextId;
    var m := after.messages[id];
    assert SenderKnown(m, directory);
    var u := m.senderId.value;
    var v := MessageView(id, m, Sender(u, directory[u].name, directory[u].avatar));
    var reply := GetMessages(after, reader, req.conversationId, directory, false).outbox[0].payload;
    assert v in reply.views;
    var k :| 0 <= k < |reply.views| && reply.views[k] == v;
  }

  /** A connection whose user is not a participant can still add a message
      to a conversation: the handler performs no participant check. With a
      `sender` in the payload the conversation then points at it. */
  lemma {:induction false} NonParticipantMessageIsStored(st: State, sid: Id, req: NewMessageRequest, now: nat)
    requires Valid(st) && sid in st.sockets
    requires req.conversationId in st.conversations
    requires !Listed(st.conversations[req.conversationId].participants, st.sockets[sid].userId)
    ensures var after := NewMessage(st, sid, req, now, false).state;
      && st.nextId in after.messages
      && after.messages[st.nextId].conversationId == req.conversationId
      && (req.sender.Some? ==> after.conversations[req.conversationId].lastMessage == Some(st.nextId))
  {
  }
}
