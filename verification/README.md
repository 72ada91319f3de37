# chat-app-back, modelled in Dafny

chat-app-back is the Express/Mongoose/socket.io back end of a chat application.
Users sign up, log in and set up a profile. They search for contacts, exchange
direct messages, create channels and post to them. Connected clients receive new
messages in real time through socket.io.

This project models the parts of that back end that hold logic. Each one is a
pure function over immutable data:

- **Presence** (`socket.js`). The `userSocketMap` is an insertion-ordered
  sequence of `(user, socket)` entries, because a JavaScript `Map` iterates in
  insertion order and `disconnect` stops at the first match.
- **Fan-out** (`socket.js`). The two send handlers map (registry, store) to
  (store', emission trace). The trace is a sequence, so a self-addressed direct
  message reaches its socket twice. An admin who is also a member also receives
  a channel message twice.
- **Queries**. The direct-conversation history, contact search, the DM-contact
  aggregation, contact labels, channel visibility and channel history are
  functions over `seq<Message>`, `seq<User>` and `seq<Channel>`.
- **String transforms**. The upload file-name sanitiser, the regular-expression
  escaper and the two upload path formats, each with its inverse.
- **Request handlers**. Every handler is a decision tree over its inputs. It
  returns a `Reply` holding the status code and message the handler sends, the
  new store, and any file-system operations it requests.
- **User record** (`models/UserModel.js`). The `pre("save")` hook hashes the
  password only when it was modified.

Password hashing and comparison (bcrypt) are function parameters `hash` and
`compare`. A JWT is a symbolic `Token` that records its claims, its secret and
its lifetime. The current time, the authenticated user id and the ids Mongo
would generate are inputs. A new id that is already in use models Mongo's
duplicate-key failure.

Two handlers reply to a client error with `response.status(...)`. That
identifier is not imported in `ContactsController.js` or `ChannelController.js`,
so the call throws and the surrounding `catch` answers 500. The model follows
the code:

- `searchContacts` without a search value gives 500 "Internal server error".
- `getChannelMessages` for an unknown channel gives 500 "Internal server error.".

Three more behaviours follow the code as written:

- The sanitiser keeps `.` and `-` as well as ASCII letters and digits, because
  its character class is `[^a-zA-Z0-9.-]`.
- `getAllContacts` labels a user who has a first name but no last name as
  `"<first> undefined"`, because the label is a template literal.
- `sendChannelMessage` for an unknown channel still stores the message. It
  emits nothing, because it reads `channel._id` before its null check.

## Model

| member | source | states |
|---|---|---|
| Presence.Lookup | socket.js:34-35 | `userSocketMap.get(u)` is `None` exactly when no entry has key `u`; a found socket comes from an entry `(u, s)` |
| Presence.Set | socket.js:97 | after `set(u, s)`, `u` maps to `s` and every other key keeps its lookup; a new key is appended at the end; an existing key keeps its position and the order of keys is unchanged; no entry other than `(u, s)` is introduced |
| Presence.SetKeepsKeysUnique | socket.js:97 | `set` never makes a key occur twice |
| Presence.Connect | socket.js:93-101 | a truthy handshake `userId` becomes mapped to the new socket, overwriting any earlier socket, and no other user's lookup changes; a missing or empty `userId` leaves the registry unchanged |
| Presence.FirstOnSocket | socket.js:25-26 | the position the scan stops at: the first entry whose value is the socket, or `None` exactly when no entry has that value |
| Presence.Disconnect | socket.js:22-32 | if no entry holds the socket, the registry is unchanged; otherwise exactly the first such entry is deleted and all others stay in order |
| Presence.DisconnectKeepsKeysUnique | socket.js:22-32 | disconnecting keeps keys unique and introduces no entry |
| Presence.RemoveKeepsKeysUnique | socket.js:27 | deleting one entry keeps keys unique and introduces no entry |
| Presence.LookupSurvivesOtherDisconnect | socket.js:22-32 | disconnecting a socket other than `u`'s leaves `u`'s lookup unchanged |
| Presence.ReconnectSurvivesStaleDisconnect | socket.js:25-31 | once `u` has reconnected on `s2`, disconnecting the old `s1` leaves `u` mapped to `s2` |
| Presence.StaleDisconnectIsNoop | socket.js:25-31 | if only `u` was registered on `s1`, then after `u` reconnects on `s2` the disconnect of `s1` removes nothing |
| Presence.DisconnectTakesOwnerOffline | socket.js:22-32 | when keys and sockets are unique, disconnecting `u`'s socket takes `u` offline |
| Presence.Apply | socket.js:93-107 | one connect or disconnect event keeps keys unique |
| Presence.Run | socket.js:93-107 | any sequence of connect and disconnect events keeps keys unique |
| Socket.FanOut | socket.js:78-85 | the per-member loop emits at most once per member |
| Socket.FanOutEmissions | socket.js:78-85 | every fan-out emission carries the given event and payload and goes to the socket of some listed, online member |
| Socket.FanOutReachesOnline | socket.js:78-83 | every listed member who is online receives an emission |
| Socket.FanOutConcat | socket.js:78-85 | fanning out to `a + b` is the fan-out to `a` followed by the fan-out to `b` |
| Socket.EmissionsToConcat | socket.js:78-85 | the emissions a socket receives from two traces in sequence add up |
| Socket.FanOutMultiplicity | socket.js:78-85 | a socket receives exactly as many emissions as there are list positions whose member is mapped to it, with no de-duplication |
| Socket.FanOutAllOnline | socket.js:78-85 | when every member is online, the trace has one emission per member, in member order |
| Socket.OnlineTargets | socket.js:79-83 | the members kept are exactly the listed ones with a socket in the registry |
| Socket.FanOutSkipsOffline | socket.js:79-83 | an offline member is skipped without a trace: fanning out to a list equals fanning out to its online members |
| Socket.FanOutOnlineOrder | socket.js:78-85 | the fan-out has one emission per online member, and the i-th emission goes to the i-th online member's socket |
| Socket.OnlineTargetsAllOnline | socket.js:79-83 | when every member is online, no member is skipped |
| Socket.SendMessage | socket.js:33-50 | a direct send stores the message and emits `receiveMessage` first to the recipient's socket if mapped, then to the sender's socket if mapped, and nothing else; a used message id stores nothing and emits nothing |
| Socket.DirectSendMultiplicity | socket.js:43-48 | a socket receives one emission for each of recipient and sender mapped to it |
| Socket.SelfMessageEmittedTwice | socket.js:43-48 | a self-addressed message to an online user is emitted twice to the same socket |
| Socket.PopulatedMembers | socket.js:73 | `populate("members")` keeps exactly the members that have a user record |
| Socket.PopulatedMembersConcat | socket.js:73 | populating keeps the members in list order: populating `a + b` gives the populated `a` followed by the populated `b` |
| Socket.PopulatedMembersRepeats | socket.js:73 | a known member listed k times is populated k times; an unknown one is dropped |
| Socket.PopulatedMembersAllKnown | socket.js:73 | when every member has a user record, populating keeps the member list as it is |
| Socket.ChannelRecord | socket.js:55-62 | the stored channel message has recipient null, the sender given, and the send time as timestamp |
| Socket.SendChannelMessage | socket.js:52-91 | a channel send stores the message and appends its id to the end of the channel's message list; an unknown channel still gets the message stored, with no channel changed and nothing emitted |
| Socket.ChannelSendEmissions | socket.js:77-89 | each socket receives one `receive-channel-message`, with a payload carrying the channel id, for every online populated member mapped to it, plus one if it is the admin's |
| Socket.ChannelSendOrder | socket.js:77-89 | for any registry: one emission per online populated member, the i-th to the i-th such member's socket in member order, then one to the admin's socket exactly when the admin is online |
| Socket.ChannelSendOrderAllOnline | socket.js:77-89 | when every member is a known user and everyone is online, the trace has one emission per member in member order, then one to the admin |
| Socket.AdminMemberEmittedTwice | socket.js:77-89 | an online admin who is also listed as a member receives the channel message at least twice |
| Socket.TargetsOnMember | socket.js:78-83 | an online listed member's socket is the target of at least one list position |
| Store.FindMessage | socket.js:39 | `Message.findById` finds nothing exactly when no stored message has the id; a found message is stored and has that id |
| Store.FindChannel | socket.js:73 | `Channel.findById` finds nothing exactly when no stored channel has the id; a found channel is stored and has that id |
| Store.FindChannelAfterPush | socket.js:69-73 | reading the channel back after the push gives it with the id appended |
| Store.FindOtherChannelAfterPush | socket.js:69-71 | `$push` on one channel leaves every other channel as it was found |
| Store.FindMessageAfterAppend | socket.js:37-39 | after `Message.create` with a new id, `findById` of that id returns the created record and other ids resolve as before |
| UserModel.Save | models/UserModel.js:4-49 | saving succeeds exactly when the required `email` and `password` are non-empty; the password is replaced by its hash only when it was modified, and no other field changes |
| UserModel.SetProfileImage | controllers/AuthController.js:219 | assigning `profileImage` sets that field to the new value, keeps every other field of the user, and leaves the password's modified flag alone |
| UserModel.NoDoubleHash | models/UserModel.js:41-49 | re-saving a loaded user, whose password is not modified, stores the same record: the password is never hashed twice |
| UserModel.FindById | controllers/ChannelController.js:10 | `User.findById` finds nothing exactly when no user has the id; a found user has that id |
| UserModel.FindByEmail | controllers/AuthController.js:72 | `User.findOne({ email })` finds nothing exactly when no user has the email; a found user has that email |
| UserModel.ReplaceKeepsWellFormed | models/UserModel.js:5-9 | replacing a user's record keeps ids and emails unique when its email is unchanged |
| MessagesController.GetMessages | controllers/MessagesController.js:4-33 | 400 "User IDs are required" exactly when either id is missing or empty; otherwise 200 with exactly the stored messages between the two users in either direction, none of them a channel message, in non-decreasing timestamp order, each stored match once |
| MessagesController.Between | controllers/MessagesController.js:16-21 | a message is in the history of `u1` and `u2` exactly when it has a recipient and its sender and recipient are, as a set, `u1` and `u2` |
| MessagesController.ConversationSymmetric | controllers/MessagesController.js:16-21 | the history between `u1` and `u2` is the history between `u2` and `u1` |
| MessagesController.RemovePercent | controllers/MessagesController.js:43 | the result holds no `%`, its length is the input length minus the number of `%`, and every other character occurs as often as in the input |
| MessagesController.ReplaceDisallowed | controllers/MessagesController.js:44 | replacing characters one for one keeps the length |
| MessagesController.SanitizeFileName | controllers/MessagesController.js:42-45 | the sanitised name is shorter than the original by its number of `%` and uses only characters of `[a-z0-9._-]` |
| MessagesController.SanitizeFileNameSpec | controllers/MessagesController.js:42-45 | the sanitised name has no `%`, only characters of `[a-z0-9._-]`, and the input's length minus its `%` count; position by position against the `%`-free name, an upper-case letter is lower-cased, a lower-case letter, digit, `.` or `-` is kept, and every other character becomes `_` |
| MessagesController.RemovePercentAppend | controllers/MessagesController.js:43 | a single character is dropped exactly when it is `%`, and the result for `a + b` is the result for `a` followed by the result for `b`, so the kept characters stay in their order |
| MessagesController.RemovePercentNoop | controllers/MessagesController.js:43 | dropping `%` from a `%`-free string changes nothing |
| MessagesController.SanitizeIdempotent | controllers/MessagesController.js:42-45 | sanitising a sanitised name returns it unchanged |
| MessagesController.UploadFile | controllers/MessagesController.js:35-62 | 400 "No file uploaded" with no file system operation when no file is given; otherwise the dated directory is created, the upload is moved, and 200 returns `uploads/files/<date>/<sanitised name>` |
| MessagesController.UploadPathRoundTrip | controllers/MessagesController.js:47-50 | the returned path determines the upload date and the sanitised name |
| Sorting.SortBy | controllers/MessagesController.js:24 | a sort yields a permutation of its input, ordered by the key in the requested direction |
| ContactsController.CountMeta | controllers/ContactsController.js:14 | the number of metacharacters never exceeds the length; it is 0 exactly when no character is a metacharacter, and the full length exactly when every character is one |
| ContactsController.EscapeRegex | controllers/ContactsController.js:14 | the escaped text is longer than the input by exactly the number of metacharacters `. * + ? ^ $ { } ( ) \| [ ] \` |
| ContactsController.EscapeRoundTrip | controllers/ContactsController.js:14 | the escaped text is a well-formed literal pattern, a backslash before each metacharacter and nothing else, and dropping those backslashes recovers the input |
| ContactsController.UnescapeRoundTrip | controllers/ContactsController.js:14 | escaping the unescaped form of a literal pattern gives the pattern back |
| ContactsController.SearchContacts | controllers/ContactsController.js:5-36 | a missing search value gives 500 "Internal server error"; otherwise 200 with exactly the users other than the requester whose first name, last name or email contains the search text, ignoring ASCII case |
| ContactsController.ContainsEmpty | controllers/ContactsController.js:16 | the empty pattern matches every string |
| ContactsController.EmptySearchReturnsEveryoneElse | controllers/ContactsController.js:14-28 | an empty search value returns every user except the requester |
| ContactsController.Counterpart | controllers/ContactsController.js:56-62 | for a direct message involving `u`, `u` and the group key are its sender and recipient; a channel message `u` sent has no key |
| ContactsController.LatestOf | controllers/ContactsController.js:55-64 | a bucket lookup finds nothing exactly when no bucket has the key |
| ContactsController.LatestOfBucket | controllers/ContactsController.js:55-64 | with distinct keys, each bucket's time is what its key looks up |
| ContactsController.AddToBucket | controllers/ContactsController.js:55-64 | folding a message in raises its counterpart's time to the larger of the two, or opens a bucket; every other key's time is unchanged |
| ContactsController.AddToBucketDistinct | controllers/ContactsController.js:55-64 | folding a message in never opens a second bucket for a key |
| ContactsController.Group | controllers/ContactsController.js:55-64 | `$group` gives each counterpart one bucket |
| ContactsController.GroupKeys | controllers/ContactsController.js:55-62 | a counterpart has a bucket exactly when one of the messages has that counterpart |
| ContactsController.GroupIsLatest | controllers/ContactsController.js:52-64 | each bucket's time is the latest timestamp among the messages with that counterpart |
| ContactsController.IsLatestOfFilter | controllers/ContactsController.js:45-50 | the latest time among the user's messages is the latest among all messages involving the user |
| ContactsController.Join | controllers/ContactsController.js:66-87 | `$lookup` with `$unwind` yields at most one contact per bucket |
| ContactsController.JoinSound | controllers/ContactsController.js:66-87 | each joined contact comes from a bucket whose counterpart has a user record, projected from that record with the bucket's time |
| ContactsController.JoinComplete | controllers/ContactsController.js:66-87 | each bucket whose counterpart has a user record yields a contact |
| ContactsController.JoinDistinct | controllers/ContactsController.js:66-87 | joined contacts have distinct ids |
| ContactsController.DmListLatest | controllers/ContactsController.js:45-64 | every joined contact carries the latest timestamp among the user's messages with that counterpart |
| ContactsController.DmListComplete | controllers/ContactsController.js:45-76 | every counterpart of the user's messages that has a user record appears in the joined list |
| ContactsController.GetContactsForDmList | controllers/ContactsController.js:38-99 | 200 with contacts sorted by last message time, non-increasing, each counterpart once; each contact is the projection of an existing user and carries the latest timestamp exchanged with it; every counterpart with a user record is listed, and null or unknown counterparts are dropped |
| ContactsController.ContactOptions | controllers/ContactsController.js:104-113 | every user other than the requester gets an option whose value is its id and whose label is its `Label`; no option names the requester, each comes from a stored user, and there are no more options than users |
| ContactsController.GetAllContacts | controllers/ContactsController.js:101-120 | 200 with an option for each user other than the requester and none for the requester |
| ContactsController.Label | controllers/ContactsController.js:111 | a user without a first name is labelled by email; one with a first name as `first + " " + last`, with a missing last name shown as `undefined` |
| ChannelController.MatchingUsers | controllers/ChannelController.js:16 | the count of users matching `$in: members` never exceeds the number of users; it is 0 exactly when no user's id is listed, and the number of users exactly when every user's id is listed |
| ChannelController.MatchingUsersIsIntersection | controllers/ChannelController.js:16-17 | with unique user ids, the count is the number of distinct listed ids that belong to a user |
| ChannelController.KnownIsInIds | controllers/ChannelController.js:16 | an id has a user record exactly when some user carries it, which is what `$in` matches on |
| ChannelController.MemberCheckExact | controllers/ChannelController.js:16-19 | the member check passes exactly when the list repeats no id and every id belongs to a user |
| ChannelController.CreateChannel | controllers/ChannelController.js:5-33 | 400 "Admin user not found" for an unknown requester; 500 when `members` is missing; 400 "Some members are not valid users." when the count differs; when it matches, 500 "Internal server error." if the new id is taken and success otherwise; success is 201 with a channel named as given, members exactly as given, the requester as admin and no messages, appended to the store; a failure leaves the store unchanged |
| ChannelController.CreateChannelAccepts | controllers/ChannelController.js:16-28 | for a known requester and a fresh id, creation succeeds exactly when the members are distinct known users |
| ChannelController.Visible | controllers/ChannelController.js:40 | a channel is visible to a user exactly when the user is its admin or one of its members |
| ChannelController.GetUserChannels | controllers/ChannelController.js:35-49 | 201 with exactly the channels the user administers or belongs to, most recently updated first, each stored channel once |
| ChannelController.ResolveMessages | controllers/ChannelController.js:55-61 | populating message ids yields stored messages whose ids are listed, at most one per id |
| ChannelController.ResolveMessagesInOrder | controllers/ChannelController.js:55-67 | when every id resolves, the history lists the messages in stored id order |
| ChannelController.ResolveMessagesAppend | controllers/ChannelController.js:55-61 | resolving an appended id appends its message when it resolves |
| ChannelController.GetChannelMessages | controllers/ChannelController.js:51-72 | an unknown channel gives 500 "Internal server error."; a known channel gives 201 with messages that are stored and listed by the channel |
| AuthController.CookieLifetime | controllers/AuthController.js:7-39 | the token lives 259200 seconds and the cookie 259200000 milliseconds: the same three days |
| AuthController.SessionCookie | controllers/AuthController.js:34-39 | the `jwt` cookie carries the token, is secure, http-only and `SameSite=None`, and for a token of `maxAge` seconds lives the same time in milliseconds |
| AuthController.Signup | controllers/AuthController.js:20-61 | 400 "Email and Password is required" without touching the store; 400 "User already exists" for a taken email or id; otherwise the user is stored with the hashed password and `profileSetup: false`, and the reply is 201 exactly when a token can be signed, else 500; a 201 carries the new user's id and email, a token for them with a lifetime of `maxAge`, and the matching cookie; unique ids and emails are preserved |
| AuthController.Login | controllers/AuthController.js:63-107 | 400 "Email and Password are required"; 401 "Invalid credentials: User not found"; 401 "Invalid credentials: Wrong password"; for a known email and a matching password, 200 when the secret is set and 500 otherwise; a 200 carries the user's id, email and `profileSetup`, a token for them with a lifetime of `maxAge`, and the matching cookie |
| AuthController.UpdateProfile | controllers/AuthController.js:144-175 | 400 "All fields are required" unless both names are non-empty; 500 for an unknown user; for a known user the names are set, the color is set from `selectedColor`, `profileSetup` becomes true, the body's `profileImage` is ignored, and 200 returns the updated profile; unique ids and emails are preserved |
| AuthController.ProfileImagePathRoundTrip | controllers/AuthController.js:184-186 | the stored path `uploads/profiles/<date>-<name>` determines the date and the original name, whatever the name contains |
| AuthController.AddProfileImage | controllers/AuthController.js:177-203 | 400 "No file uploaded" with no file system operation; otherwise the upload is moved to its dated path; for a known user that path becomes the user's `profileImage` and the 200 reply, and an unknown user gives 500 after the move |
| AuthController.DeleteProfileImage | controllers/AuthController.js:205-229 | 404 "User not found" for an unknown user; the image file is unlinked only when one is set; on success `profileImage` is cleared and the reply is 200 "Profile image deleted successfully"; a well-formed store always succeeds |
| Flows.SignupThenLogin | controllers/AuthController.js:20-107 | a user who has just signed up can log in with the same credentials, given that `compare` accepts a password against its own hash |
| Flows.FindByEmailAfterAppend | controllers/AuthController.js:28-32 | a user created with a new email is found by that email |
| Flows.DirectMessageRetrievable | socket.js:33-50 | a direct message that was sent appears in the history between its sender and recipient |
| Flows.ChannelSendKeepsRefs | socket.js:55-71 | a channel send keeps every message id a channel lists resolvable |
| Flows.ChannelHistoryAfterSend | socket.js:55-71 | after a channel send, the channel's history is the earlier history followed by the new message |
| Flows.ResolveAfterAppend | controllers/ChannelController.js:55-61 | storing a message with a new id does not change how ids that already resolve resolve |
| Flows.CreatedChannelVisible | controllers/ChannelController.js:21-42 | a created channel is listed for its admin and for each of its members |
| Flows.ChannelScenario | socket.js:77-89 | a channel with member `u3` and admin `u4`, both online, emits to `u3`'s socket and then to `u4`'s |

## Left out

- The socket.io server, CORS, and the transport behind `emit`. Emissions are a returned trace of (socket id, event, payload).
- Interleaving between `await`s. Each handler is atomic. A direct send reads both sockets from the registry it is given, before it stores anything.
- bcrypt `genSalt`, `hash` and `compare`. They are the parameters `hash` and `compare`, and the salt is not modelled.
- jsonwebtoken signing and verification. A token is the symbolic record of what was signed.
- `Date.now()` and `new Date()`. The time is a parameter, rendered in decimal where a path includes it.
- The file system. `mkdirSync`, `renameSync` and `unlinkSync` are returned as `FsOp` requests, and their own failures are not modelled.
- Mongoose internals: ObjectId casting, `populate` field selection, the aggregation engine, and `updatedAt` maintenance. `updatedAt` is stored data.
- The order in which Mongo sorts equal keys, which Mongo leaves unspecified. Contracts state order and permutation only.
- `models/ChannelModel.js` and `models/MessagesModel.js` are not part of this model. Their records are inferred from how the handlers use them.
- Schema validation of channels and messages, such as a required channel name, which those two files would define. `Message.create` and `newChannel.save()` fail in the model only when the new id is already taken.
- `getUserInfo` and `logout`, because they only verify a token or clear a cookie.
- `routes/ChannelRoutes.js`, which is wiring, and `middlewares/AuthMiddleware.js`. The authenticated user id is an input.
- Request bodies holding values of the wrong type, such as a non-string `searchValue` or a non-array `members`.
- Regular expressions in general. Only the escaped, literal patterns that `searchContacts` builds are modelled, as substring search ignoring ASCII case.
- Unicode case folding and UTF-16 code units. A `char` is one Unicode scalar, and lower-casing covers ASCII letters only.
- Mongoose's handling of `undefined` in `findByIdAndUpdate`. An absent `selectedColor` is taken to leave `color` as it was.
- Express response mechanics beyond the status code, the message, and the cookie's name, lifetime and flags.
