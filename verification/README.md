# Chat backend and client helpers, modelled in Dafny

This project models the core of a real-time chat application:

- the socket layer of the server: the handshake middleware that admits a
  connection by its session token, the connection handler that joins the
  rooms of the user's conversations, and the five chat events
  (`getConversations`, `newConversation`, `newMessage`, `getMessages`,
  `deleteConversation`);
- registration and login over the user collection, with the user schema's
  constraints and the session token that both issue;
- two client helpers: the decisions of the image upload helper and of
  `getAvatarPath`, and what a row of the conversation list shows.

The server state is one immutable value: the conversations and messages of
the store and the registry of live connections with their rooms
(`ChatState.State`). Every handler is a pure function from a state to a new
state plus the list of events it emits (`ChatState.Step`). An emit goes to
one connection (`socket.emit`), to a room (`io.to`), or to a room except the
requesting connection (`socket.to`). Each store call is one atomic map
operation. Timestamps, the salt, the signing secret and the clock are
parameters. A `fault` flag stands for the first store call of a handler
throwing; the handler then catches it and answers the requester.

Decisions where the source left freedom:

- Identifiers (ObjectIds and socket ids) are natural numbers drawn from one
  counter, `nextId`; the user collection has its own.
- `findOne` with several matching documents is modelled as picking the least
  id. Sorting is stable, so documents with equal timestamps come in
  ascending id order.
- The conversation and message schemas are not part of this model. They are
  taken to use the store's automatic timestamps: a created document gets
  `createdAt = updatedAt = now`, and `findByIdAndUpdate` sets `updatedAt`.
- The `lowercase` and `trim` setters of the email field also apply to query
  filters, so `findOne({ email })` looks up the normalised email.
- An empty `$all` list matches no document, so a direct request with no
  participants never de-duplicates.
- Cryptography is symbolic. A bcrypt digest records the salt and the 72
  bytes bcrypt keys its cipher with: the password's UTF-8 encoding followed
  by a zero byte, repeated as often as needed and cut at 72 bytes.
  `compare` accepts exactly the passwords with the same key bytes. So a
  password of 72 bytes or more is interchangeable with any other that has
  the same first 72 bytes. Among passwords without U+0000, a shorter one
  matches only itself. One holding U+0000 can repeat the key of a shorter password:
  "a", U+0000, "a" matches the digest of "a". A JSON Web Token
  (RFC 7519) records its claims and the key that signed it. It verifies only
  under that key and while the current time is before its `exp` claim
  (section 4.1.4 of RFC 7519).

Behaviour of the code that the model keeps as written:

- The `newMessage` handler checks neither that the conversation exists nor
  that the sender is a participant (backend/socket/chatEvents.ts:127-133), so
  a non-participant's message is stored.
  `ChatProperties.NonParticipantMessageIsStored` states this.
- The conversation list is sorted by `updatedAt` alone
  (backend/socket/chatEvents.ts:25).
- The participant count of a direct request is not validated
  (backend/socket/chatEvents.ts:56-85). A direct request whose participants
  are not two ids is stored as given, and de-duplication only matches
  two-entry conversations.
- A delivered message is broadcast under `newMessage`
  (backend/socket/chatEvents.ts:135), the name of the inbound event.
- `getMessages` reports its failure as "Failed to send the message", the same
  text as `newMessage`. The model keeps that text.
- The "Unauthorized" branches of `getConversations` and `deleteConversation`
  depend on a connection without a user id. No such connection arises
  through the modelled handshake, since `Session.Admit` always attaches one.
  The branches are modelled all the same.

## Model

| member | source | states |
|---|---|---|
| ChatEvents.GetConversations | backend/socket/chatEvents.ts:8-49 | Answers only the requester and never changes the state. Without a user id it answers "Unauthorized", with or without a store failure; a store failure answers "Failed to get conversations". Otherwise it answers exactly the conversations listing the user, each once, most recently updated first. |
| ChatEvents.ConversationsOf | backend/socket/chatEvents.ts:22-25 | The query result holds exactly the conversations whose participants include the user, each once, sorted by `updatedAt` descending. |
| ChatEvents.FindDirect | backend/socket/chatEvents.ts:56-66 | Finds a direct two-entry conversation containing every requested id, if one exists (the least such id). It answers none exactly when no conversation matches. |
| ChatEvents.JoinRoom | backend/socket/chatEvents.ts:87-95 | Every live connection whose user is listed gains the room. No other connection's rooms change, no connection is added or removed, and user ids stay the same. |
| ChatEvents.NewConversation | backend/socket/chatEvents.ts:52-122 | A store failure answers "Failed to create conversation" with no change. A matched direct request changes nothing and answers only the requester with the match and `isNew` false. Otherwise exactly one conversation is added under a fresh id, with the requested kind and participants, `name`/`avatar` defaulting to "" and `createdBy` the requester's user id. Exactly the live connections of listed users join its room. The `isNew` true event goes to that room and reaches exactly those connections. |
| ChatEvents.NewMessage | backend/socket/chatEvents.ts:124-164 | Adds exactly one message under a fresh id and keeps every other message. Its sender is the connection's user id, not the claimed sender. The delivery goes to the conversation's room. With a `sender` in the payload, an existing conversation then points at the new message. Without one, the message is still stored, but the requester gets "Failed to send the message", nobody gets a delivery and no conversation changes. The connection registry is unchanged. A store failure answers "Failed to send the message" with no change. |
| ChatEvents.MessagesOf | backend/socket/chatEvents.ts:170-171 | The query result holds exactly the messages of the conversation, each once, newest first. |
| ChatEvents.Populate | backend/socket/chatEvents.ts:172-186 | Succeeds exactly when every message's sender is found; then the views pair each message with its `_id` as `id` and its populated sender, in order. |
| ChatEvents.GetMessages | backend/socket/chatEvents.ts:166-200 | Answers only the requester and never changes the state. A store failure or a sender that cannot be populated answers "Failed to send the message". Otherwise it answers exactly the conversation's messages, newest first, with distinct ids and their populated senders. |
| ChatEvents.WithoutConversation | backend/socket/chatEvents.ts:244-245 | Removes exactly the messages of the conversation and keeps every other message as it was. |
| ChatEvents.DeleteConversation | backend/socket/chatEvents.ts:203-281 | Without a user id, on a store failure, for an unknown conversation, or for a non-participant, it answers only the requester with the matching failure text and changes nothing. Otherwise the conversation and exactly its messages are removed and only the requester leaves the room. The requester gets the success reply. The room, except the requester, gets `conversationDeleted` naming the user. |
| ChatEvents.Dispatch | backend/socket/chatEvents.ts:6-284 | The two read events never change the state, and every direct reply goes to the requesting connection. |
| Session.Authenticate | backend/socket/socket.ts:19-35 | A missing or empty token is refused with "No token provided" before verification. A token that does not verify is refused as invalid. Otherwise the connection is accepted with the token's `user` claim. |
| Session.OnConnection | backend/socket/socket.ts:38-60 | The new connection gets a fresh id and the token's user id. It joins exactly the rooms of the conversations listing the user, or none when the lookup throws. The store and every other connection are untouched, and the freshness invariant holds. |
| Session.Admit | backend/socket/socket.ts:19-55 | A connection is rejected exactly when the handshake refuses it, with the same error. An admitted connection has the token's user id. |
| Session.Disconnect | backend/socket/socket.ts:62-64 | Removes only the connection, with its rooms; the store and every other connection are unchanged. |
| Session.GeneratedTokenAdmitsOwner | backend/socket/socket.ts:24-32 | A token issued at login or registration, presented within thirty days under the same secret, is admitted, and the connection's user id is the stored user's id. |
| Session.MissingTokenRefused | backend/socket/socket.ts:20-23 | A missing or empty token is refused as missing whatever the secret and the clock. |
| Tokens.Sign | backend/utils/token.ts:17 | The signed claims carry the given user and expire thirty days after issue. |
| Tokens.Verify | backend/socket/socket.ts:24-27 | Decodes exactly the tokens signed under the same secret and not yet expired, yielding their claims. |
| Tokens.GenerateToken | backend/utils/token.ts:7-18 | The payload's only user claim holds exactly the user's id, name, email and avatar, and expires thirty days after issue. |
| Tokens.VerifySign | backend/utils/token.ts:17 | Verifying a generated token under its key returns the signed claims before expiry and nothing from the thirtieth day on. |
| Tokens.ForeignKeyRejected | backend/socket/socket.ts:24-27 | A token signed under another key never verifies. |
| Tokens.TokenIgnoresPassword | backend/utils/token.ts:8-15 | The token does not depend on the stored password digest. |
| Users.FindByEmail | backend/controllers/auth.controller.ts:11 | Finds a user exactly when the normalised email is a key of the store, and then the user stored there. |
| Users.Normalize | backend/models/User.ts:9-10 | The email the setters store has no ASCII capital letter, no white space at either end, and is no longer than the submitted one. |
| Users.NormalizeStripsPadding | backend/models/User.ts:9-10 | The stored email is the submitted one with white space removed from both ends, and nothing else removed, then lower-cased. |
| Users.SchemaValidIsStoredForm | backend/models/User.ts:5-19 | A document satisfies the schema exactly when its email and name are non-empty and the email setters leave its email unchanged. |
| Users.StoreValid | backend/models/User.ts:5-11 | In a valid store every key is a non-empty email in the stored form: no ASCII capital letter and no white space at either end. The store is keyed by that email, so the unique index holds by construction. |
| Users.StoredUserIsFound | backend/controllers/auth.controller.ts:11 | In a valid store, looking up a stored user's email finds that user. |
| Bcrypt.Hash | backend/controllers/auth.controller.ts:26-27 | The digest keeps the salt and accepts exactly the passwords whose 72 key bytes equal this password's, this password among them. |
| Bcrypt.KeyOf | backend/controllers/auth.controller.ts:27 | The key has 72 bytes. A password of 72 UTF-8 bytes or more gives its first 72. A shorter one gives its whole encoding followed by a zero byte. |
| Bcrypt.Compare | backend/controllers/auth.controller.ts:64 | Accepts exactly when the digest's key has 72 bytes, starts with the UTF-8 encoding plus a zero byte, and from there repeats it with that period. For a password of 72 bytes or more, accepts exactly when the key is its first 72 bytes. |
| Bcrypt.Utf8Injective | backend/controllers/auth.controller.ts:27 | Distinct passwords have distinct UTF-8 encodings. |
| Bcrypt.ShortPasswordMatchesOnlyItself | backend/controllers/auth.controller.ts:64 | Among passwords without U+0000, one shorter than 72 UTF-8 bytes is accepted by its own digest and no other is. |
| Bcrypt.ZeroCharRepeatsKey | backend/controllers/auth.controller.ts:64 | The password "a", U+0000, "a" differs from "a" and is still accepted by the digest of "a". |
| Bcrypt.BytesPastTheKeyIgnored | backend/controllers/auth.controller.ts:64 | Once a password reaches 72 UTF-8 bytes, whatever follows is ignored: any two extensions of it are accepted by each other's digests. |
| Users.NormalizedIsFixed | backend/models/User.ts:9-10 | An email has that stored form exactly when the setters leave it unchanged. |
| Users.NormalizeIdempotent | backend/models/User.ts:5-11 | Normalising a stored email gives it back, so re-saving or re-querying it finds the same key. |
| Users.NormalizeIgnoresCaseAndPadding | backend/models/User.ts:9-10 | Emails differing only in ASCII letter case and surrounding white space map to the same stored email. |
| Users.TrimIdempotent | backend/models/User.ts:10 | Trimming twice is trimming once. |
| Users.LowerIdempotent | backend/models/User.ts:9 | Lower-casing twice is lower-casing once. |
| Users.TrimLowerCommute | backend/models/User.ts:9-10 | Trimming and lower-casing commute, so the order the setters run in does not matter. |
| Auth.Register | backend/controllers/auth.controller.ts:7-52 | Any throw answers 500. An existing (normalised) email answers 400 "User already exists". An empty email or name fails the schema and answers 500. Every non-201 answer leaves the store unchanged. A 201 adds exactly one user under the normalised email with a fresh id, the hashed password and the avatar defaulting to "", and returns a token and the public fields of that user. The store stays valid. |
| Auth.Login | backend/controllers/auth.controller.ts:54-90 | Any throw answers 500. An unknown email and a wrong password both answer 401 "Invalid credentials". A matching password answers 200 with a token and the public fields of the stored user. |
| Auth.NewUser | backend/controllers/auth.controller.ts:18-27 | The new document has the next id, the stored form of the email, the name, a digest with the generated salt that accepts the password, and the avatar, or "" when that is falsy. The schema accepts it exactly when the stored email and the name are non-empty. |
| Auth.ViewIgnoresOnlyPassword | backend/controllers/auth.controller.ts:74-83 | Two users have the same response `user` object exactly when their id, name, email and avatar agree; the password digest never reaches it. |
| Auth.AddUser | backend/controllers/auth.controller.ts:30 | Saving a new valid document with the next id under an unused email stores it under that email, keeps every other document, and keeps the store valid. |
| Auth.AddPreservesValid | backend/models/User.ts:5-23 | Adding a schema-valid user with a fresh id under its own unused email keeps every document valid and ids and emails unique. |
| Auth.UnknownEmailLooksLikeWrongPassword | backend/controllers/auth.controller.ts:58-68 | An unknown email and a wrong password produce the identical response. |
| Auth.RegisterThenLogin | backend/controllers/auth.controller.ts:7-90 | After a successful registration, logging in with any spelling of the email that normalises alike succeeds for the new user exactly when the password has the registered one's 72 key bytes, and is refused otherwise. The registered password always succeeds. When the registered password is shorter than 72 bytes and neither password contains U+0000, no other password succeeds. |
| Auth.LongPasswordsShareLogin | backend/controllers/auth.controller.ts:54-68 | A user registered with a password of at least 72 UTF-8 bytes followed by more text logs in with the first part alone. |
| Auth.RegisterTwiceRejected | backend/controllers/auth.controller.ts:11-15 | Registering an email again, in any case and padding, answers 400 and changes nothing. |
| ChatEvents.MatchesDirect | backend/socket/chatEvents.ts:58-61 | The filter depends only on the set of requested ids: it matches a direct two-entry conversation exactly when that set is non-empty and within the conversation's participant pair. |
| Session.RoomsOf | backend/socket/socket.ts:49-55 | The rooms joined on connection are exactly the conversations whose participants include the user. |
| ChatProperties.DirectMatchIsUnorderedPair | backend/socket/chatEvents.ts:58-61 | For two distinct users the filter matches exactly the direct two-entry conversations whose participant set is that pair. |
| ChatProperties.FindDirectIgnoresOrder | backend/socket/chatEvents.ts:58-61 | Requesting `[a, b]` and `[b, a]` finds the same conversation. |
| ChatProperties.DirectMatchUnique | backend/socket/chatEvents.ts:56-74 | Under the invariant at most one conversation matches a request for two distinct users. |
| ChatProperties.RepeatedDirectRequestReturnsSame | backend/socket/chatEvents.ts:56-112 | After a direct conversation is created for `[a, b]`, a request for `[b, a]` from any connection returns it with `isNew` false and changes nothing. |
| ChatProperties.NewConversationKeepsInvariant | backend/socket/chatEvents.ts:52-122 | Creating conversations keeps identifiers fresh and keeps at most one direct conversation per participant pair. |
| ChatProperties.NewMessageKeepsInvariant | backend/socket/chatEvents.ts:124-164 | Sending a message keeps the invariant. |
| ChatProperties.DeleteConversationKeepsInvariant | backend/socket/chatEvents.ts:203-281 | Deleting a conversation keeps the invariant. |
| ChatProperties.DispatchKeepsInvariant | backend/socket/chatEvents.ts:6-284 | Every inbound event keeps the invariant. |
| ChatProperties.ConnectionKeepsInvariant | backend/socket/socket.ts:38-64 | Connecting and disconnecting keep the invariant. |
| ChatProperties.DeleteNotifiesSamePeers | backend/socket/chatEvents.ts:263-272 | The deletion notice reaches every connection in the room except the requester, whether the room is read before or after the requester leaves it. |
| ChatProperties.DeletedConversationHasNoMessages | backend/socket/chatEvents.ts:244-248 | After a successful delete, fetching the conversation's messages returns an empty list. |
| ChatProperties.SentMessageIsFetched | backend/socket/chatEvents.ts:128-191 | A sent message is returned by the next fetch of its conversation, under its id, with its content and the sending connection's user id, when every sender in the conversation is a known user. This holds even when a missing `sender` made the send answer with a failure. |
| ChatProperties.NonParticipantMessageIsStored | backend/socket/chatEvents.ts:127-154 | A connection whose user is not a participant still stores a message in the conversation. With a `sender` in the payload, the conversation then points at it. |
| ImageService.LastSegment | frontend/services/imageService.ts:31 | The text after the last '/' of the URI: a suffix without '/', which is either the whole URI or preceded by '/'. |
| ImageService.LastSegmentOfPath | frontend/services/imageService.ts:31 | For a path `dir/name` with no '/' in `name`, the derived file name is `name`. |
| ImageService.MediaTypeOf | frontend/services/imageService.ts:30 | The upload type is `mimeType`, else `type`, else "image/jpeg"; it is never empty. |
| ImageService.FileNameOf | frontend/services/imageService.ts:31 | The upload name is `fileName`, else the URI's last segment, else "photo.jpg"; it is never empty and a derived name holds no '/'. |
| ImageService.PlanUpload | frontend/services/imageService.ts:13-35 | A falsy file answers success with no data. A non-empty string answers itself as data. An object without a truthy `uri` answers success with no data. Exactly an object with a `uri` is uploaded, with that uri, a non-empty type and name, and the given folder. |
| ImageService.FailureMessage | frontend/services/imageService.ts:70-86 | The error's own `msg` wins. Otherwise it is the server's message when a response exists (else the generic text), the network text when a request went out without a response, else the generic text. It is never empty. |
| ImageService.UploadFile | frontend/services/imageService.ts:7-88 | Without an uploadable object the answer is the early return. After an upload it is the returned `secure_url`. After a failed call it is `success: false` with the failure message. |
| ImageService.NoUploadIgnoresNetwork | frontend/services/imageService.ts:13-18 | Without an uploadable object the answer does not depend on the network. |
| ImageService.UploadFailsOnlyOnNetworkFailure | frontend/services/imageService.ts:53-86 | The upload answers failure exactly when an object with a `uri` was sent and the call failed, and then with a non-empty message. |
| ImageService.UploadedUrlIsStable | frontend/services/imageService.ts:16 | Passing back a URL an upload returned answers that same URL. |
| ImageService.AvatarPath | frontend/services/imageService.ts:90-98 | A non-empty string is returned as is and an object yields its `uri`. Otherwise the result is the group default exactly when `isGroup`, else the user default. |
| ConversationItem.FirstOther | frontend/components/ConversationItem.tsx:22 | The index of the first participant whose id differs from the signed-in user's; none exactly when every participant is that user. |
| ConversationItem.OtherParticipant | frontend/components/ConversationItem.tsx:21-23 | For a group there is none. For a direct conversation it is the first listed participant other than the signed-in user, and none only when every participant is that user. With nobody signed in it is the first participant. |
| ConversationItem.RowAvatar | frontend/components/ConversationItem.tsx:20-24 | The other participant's avatar when one was found, else the conversation's avatar. |
| ConversationItem.RowTitle | frontend/components/ConversationItem.tsx:73 | For a direct conversation, the other participant's name, or nothing when there is none. For a group, the conversation's name. |
| ConversationItem.PreviewText | frontend/components/ConversationItem.tsx:26-30 | " No messages yet" without a last message. "📎 Sent an Attachment" when it has a truthy attachment, whatever its content. Otherwise its content. |
| ConversationItem.DateOf | frontend/components/ConversationItem.tsx:32-75 | The date cell is rendered exactly when a last message exists (the guard at line 75), and holds nothing when that message has no `createdAt`. |
| ConversationItem.DirectRowShowsPeer | frontend/components/ConversationItem.tsx:20-24 | A direct conversation between the signed-in user and one other person, in either order, shows that person's avatar and name. |
| ConversationItem.GroupRowShowsConversation | frontend/components/ConversationItem.tsx:20-24 | A group row shows the conversation's own avatar and name whoever is signed in. |
| ConversationItem.SelfConversationHasNoTitle | frontend/components/ConversationItem.tsx:21-24 | A direct conversation listing only the signed-in user falls back to the conversation's avatar and shows no title. |

## Left out

- The store's and the server's startup (`backend/config/db.ts`, `backend/index.ts`): pure I/O.
- `registerUserEvents`, called from the connection handler: backend/socket/userEvents.ts is not part of this model.
- The population of `lastMessage` and `participants` in `getConversations` and `newConversation`: the model returns the stored conversation. The user documents these read are not modelled.
- Concurrency between handlers: each handler is one atomic step. This includes the broadcast in `newMessage` that precedes the `lastMessage` update, and the two-step cascade in `deleteConversation`.
- Malformed event payloads beyond a missing `sender` in `newMessage`: a `newConversation` payload without `participants` or `type`, or a `newMessage` or `getMessages` payload without `conversationId`, is not expressible. The request types make those fields mandatory, so what the handlers do with such payloads is not modelled.
- A failure of a later store call in a handler: only the first call throwing is modelled (`fault`). A `deleteConversation` whose message removal succeeds and whose conversation removal throws is not modelled.
- The `findById` re-read after creating a conversation (`Failed to populate conversation`): a conversation that was just created is always found in the model.
- socket.io's own bookkeeping of rooms on disconnect is not modelled; `Session.Disconnect` removes the whole connection entry instead.
- bcrypt's salt generation and cipher, and JSON Web Token signing: symbolic, as described above. `genSalt` failing is covered by `fault`.
- Bcrypt.ShortPasswordMatchesOnlyItself: promises uniqueness only among passwords without U+0000. A password containing U+0000 can match the digest of a shorter password: "a", U+0000, "a" matches "a" (`Bcrypt.ZeroCharRepeatsKey`).
- Auth.RegisterThenLogin: its last clause has the same restriction to passwords without U+0000, for the same reason.
- Bcrypt.Utf8: strings are sequences of Unicode scalar values. A JavaScript string holding an unpaired surrogate is not modelled.
- Users.Normalize: lower-cases ASCII letters only, because full Unicode case mapping is out of scope.
- The ISO date string of a delivered message: the model sends the same `now` the store records, a natural number.
- The Cloudinary request itself, the multipart encoding, the timeout and the progress percentage: the network outcome is a parameter of `ImageService.UploadFile`.
- Logging (`console.log`) everywhere.
- The date formatting of a conversation row via `moment`: `ConversationItem.DateOf` yields the raw timestamp.
- Navigation when a row is pressed, styling and the divider of `ConversationItem.tsx`: rendering only.
