/** The state the chat socket layer works on: the persisted conversations and
    messages, the registry of live connections with their rooms, and the
    events a handler emits. A room is named by the conversation id it
    carries. */
module ChatState {
  import opened Common

  datatype ConvType = Direct | Group

  /** A persisted conversation. `createdAt`/`updatedAt` are the store's
      timestamps; `lastMessage` refers to a message id. */
  datatype Conversation = Conversation(
    kind: ConvType,
    participants: seq<Id>,
    name: string,
    avatar: string,
    createdBy: Option<Id>,
    lastMessage: Option<Id>,
    createdAt: nat,
    updatedAt: nat)

  /** A persisted message. `senderId` is whatever user id the sending
      connection carried. */
  datatype Message = Message(
    conversationId: Id,
    senderId: Option<Id>,
    content: string,
    attachment: Option<string>,
    createdAt: nat)

  /** A live connection: the user id attached at handshake (absent means
      falsy) and the rooms it has joined. */
  datatype Connection = Connection(userId: Option<Id>, rooms: set<Id>)

  /** The whole store plus the connection registry. `nextId` stands for the
      generator of fresh ObjectIds and socket ids. */
  datatype State = State(
    conversations: map<Id, Conversation>,
    messages: map<Id, Message>,
    sockets: map<Id, Connection>,
    nextId: Id)

  /** Identifier freshness: every id in use, as a key or as a joined room,
      was allocated before `nextId`. */
  predicate Valid(st: State) {
    && (forall c :: c in st.conversations ==> c < st.nextId)
    && (forall m :: m in st.messages ==> m < st.nextId)
    && (forall s :: s in st.sockets ==> s < st.nextId)
    && (forall s, room :: s in st.sockets && room in st.sockets[s].rooms ==> room < st.nextId)
  }

  /** A direct conversation holding exactly two participant entries: the
      shape the de-duplication query looks for. */
  predicate IsDirectPair(c: Conversation) {
    c.kind == Direct && |c.participants| == 2
  }

  /** The participant set of a two-entry conversation. */
  function PairOf(c: Conversation): set<Id>
    requires |c.participants| == 2
  {
    {c.participants[0], c.participants[1]}
  }

  /** At most one direct two-party conversation per unordered pair. */
  predicate DirectPairsUnique(convs: map<Id, Conversation>) {
    forall a, b ::
      a in convs && b in convs && a != b && IsDirectPair(convs[a]) && IsDirectPair(convs[b])
      ==> PairOf(convs[a]) != PairOf(convs[b])
  }

  /** The invariant every reachable state satisfies. */
  predicate Invariant(st: State) {
    Valid(st) && DirectPairsUnique(st.conversations)
  }

  /** `participants.includes(user)`: an absent user is never listed. */
  predicate Listed(participants: seq<Id>, user: Option<Id>) {
    user.Some? && user.value in participants
  }

  // ---- Outbound events -------------------------------------------------

  /** A document together with its `_id`, as a list query returns it. */
  datatype Entry<T> = Entry(id: Id, value: T)

  /** An entry of a conversation list. */
  type ConvEntry = Entry<Conversation>

  /** A `{ id, name, avatar }` sender record. */
  datatype Sender = Sender(id: Id, name: string, avatar: string)

  /** A stored message as `getMessages` returns it: `id` is the document
      `_id` and `sender` is the populated sender. */
  datatype MessageView = MessageView(id: Id, message: Message, sender: Sender)

  /** The record `newMessage` broadcasts. */
  datatype Delivery = Delivery(
    id: Id,
    content: string,
    sender: Sender,
    attachment: Option<string>,
    createdAt: nat,
    conversationId: Id)

  /** Every payload is `{ success, data?, msg? }`; `Failure` is the only one
      with `success: false`. */
  datatype Payload =
    | Failure(msg: string)
    | ConversationList(entries: seq<ConvEntry>)
    | ConversationData(entry: ConvEntry, isNew: bool)
    | MessageDelivered(delivery: Delivery)
    | MessageList(views: seq<MessageView>)
    | Deleted(conversationId: Id, msg: string)
    | DeletedByPeer(conversationId: Id, deletedBy: Id)

  /** `socket.emit` (one connection), `io.to(room)` (the whole room) and
      `socket.to(room)` (the room without the emitting connection). */
  datatype Target = ToSocket(socket: Id) | ToRoom(room: Id) | ToRoomExcept(room: Id, except: Id)

  datatype Emit = Emit(target: Target, event: string, payload: Payload)

  /** The new state and the events emitted, in emission order. */
  datatype Step = Step(state: State, outbox: seq<Emit>)

  /** Connection `s` of registry `sockets` receives an event sent to `t`. */
  predicate Receives(sockets: map<Id, Connection>, t: Target, s: Id) {
    s in sockets &&
    match t
    case ToSocket(one) => s == one
    case ToRoom(room) => room in sockets[s].rooms
    case ToRoomExcept(room, except) => room in sockets[s].rooms && s != except
  }

  const GetConversationsEvent := "getConversations"
  const NewConversationEvent := "newConversation"
  const NewMessageEvent := "newMessage"
  const GetMessagesEvent := "getMessages"
  const DeleteConversationEvent := "deleteConversation"
  const ConversationDeletedEvent := "conversationDeleted"

  /** A single reply to the requesting connection. */
  function Reply(st: State, sid: Id, event: string, payload: Payload): Step {
    Step(st, [Emit(ToSocket(sid), event, payload)])
  }
}
