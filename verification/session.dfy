/** The connection life cycle of the socket server: the authentication
    middleware run at handshake, the connection handler that joins the
    rooms of the user's conversations, and disconnection. */
module Session {
  import opened Common
  import Users
  import opened Tokens
  import opened ChatState

  const NoTokenError := "Authentication error: No token provided"
  const InvalidTokenError := "Authentication error: Invalid token"

  /** The outcome of the middleware: `next(error)` or `next()` with the
      decoded `user` claim attached to the connection. */
  datatype Handshake = Refused(error: string) | Accepted(user: TokenUser)

  /** `!token` for the handshake's `auth.token`: absent or empty. */
  predicate MissingToken(token: Option<Token>) {
    token.None? || token == Some(Malformed(""))
  }

  /** The `io.use` middleware. A missing token is refused before any
      verification; a token that does not verify under `secret` at `now` is
      refused as invalid; otherwise the decoded `user` claim is accepted. */
  function Authenticate(token: Option<Token>, secret: string, now: nat): (r: Handshake)
    ensures MissingToken(token) ==> r == Refused(NoTokenError)
    ensures !MissingToken(token) && Verify(token.value, secret, now).None? ==> r == Refused(InvalidTokenError)
    ensures r.Accepted? <==> !MissingToken(token) && Verify(token.value, secret, now).Some?
    ensures r.Accepted? ==> token.value.Signed? && r.user == token.value.claims.user
  {
    if MissingToken(token) then Refused(NoTokenError)
    else
      match Verify(token.value, secret, now)
      case None => Refused(InvalidTokenError)
      case Some(claims) => Accepted(claims.user)
  }

  /** The conversation ids listing `user`: the rooms joined on connection. */
  function RoomsOf(convs: map<Id, Conversation>, user: Id): (r: set<Id>)
    ensures forall c :: c in r <==> c in convs && user in convs[c].participants
  {
    set c | c in convs && user in convs[c].participants
  }

  /** The `connection` handler for a connection whose `userId` is `user`.
      The new connection gets a fresh socket id and joins exactly the rooms
      of the conversations listing `user`; when that lookup throws
      (`lookupFails`) the error is only logged and it stays connected with
      no room. The store and every other connection are untouched. */
  function OnConnection(st: State, user: Id, lookupFails: bool): (r: State)
    requires Valid(st)
    ensures Valid(r)
    ensures st.nextId !in st.sockets && st.nextId in r.sockets
    ensures r.sockets.Keys == st.sockets.Keys + {st.nextId}
    ensures forall s :: s in st.sockets ==> r.sockets[s] == st.sockets[s]
    ensures r.sockets[st.nextId].userId == Some(user)
    ensures forall c :: c in r.sockets[st.nextId].rooms <==>
      !lookupFails && c in st.conversations && user in st.conversations[c].participants
    ensures r.conversations == st.conversations && r.messages == st.messages
  {
    var rooms := if lookupFails then {} else RoomsOf(st.conversations, user);
    State(st.conversations, st.messages, st.sockets[st.nextId := Connection(Some(user), rooms)], st.nextId + 1)
  }

  /** The result of a connection attempt. */
  datatype Admission = Rejected(error: string) | Admitted(state: State, socket: Id)

  /** Handshake followed by the connection handler. A refused handshake
      never reaches the handler; an accepted one attaches `user.id` as the
      connection's `userId`. */
  function Admit(st: State, token: Option<Token>, secret: string, now: nat, lookupFails: bool): (r: Admission)
    requires Valid(st)
    ensures r.Rejected? <==> Authenticate(token, secret, now).Refused?
    ensures r.Rejected? ==> r.error == Authenticate(token, secret, now).error
    ensures r.Admitted? ==>
      && r.socket == st.nextId
      && r.state == OnConnection(st, Authenticate(token, secret, now).user.id, lookupFails)
      && r.state.sockets[r.socket].userId == Some(token.value.claims.user.id)
  {
    match Authenticate(token, secret, now)
    case Refused(error) => Rejected(error)
    case Accepted(user) => Admitted(OnConnection(st, user.id, lookupFails), st.nextId)
  }

  /** `disconnect`: the handler only logs; the connection leaves the
      registry and nothing persisted changes. */
  function Disconnect(st: State, sid: Id): (r: State)
    ensures Valid(st) ==> Valid(r)
    ensures r.conversations == st.conversations && r.messages == st.messages
    ensures sid !in r.sockets
    ensures forall s :: s in r.sockets <==> s in st.sockets && s != sid
    ensures forall s :: s in r.sockets ==> r.sockets[s] == st.sockets[s]
  {
    State(st.conversations, st.messages, st.sockets - {sid}, st.nextId)
  }

  /** A token issued by `generateToken` at login or registration, presented
      within thirty days under the same secret, is accepted and the
      connection's `userId` is the stored user's `_id`. */
  lemma GeneratedTokenAdmitsOwner(st: State, u: Users.User, secret: string, issued: nat, now: nat, lookupFails: bool)
    requires Valid(st)
    requires now < issued + ExpiresInSeconds
    ensures var r := Admit(st, Some(GenerateToken(u, secret, issued)), secret, now, lookupFails);
      r.Admitted? && r.state.sockets[r.socket].userId == Some(u.id)
  {
  }

  /** A token that is missing or empty is refused as missing, whatever the
      secret and the clock. */
  lemma MissingTokenRefused(st: State, token: Option<Token>, secret: string, now: nat, lookupFails: bool)
    requires Valid(st) && MissingToken(token)
    ensures Admit(st, token, secret, now, lookupFails) == Rejected(NoTokenError)
  {
  }
}
