# Chat backend: a verified model

This project models the core of a Django/Channels chat backend in Dafny. Users
belong to chats. They exchange messages over a WebSocket connection
(`ChatConsumer`) and over REST endpoints. The model covers:

- WebSocket presence: going online on connect and offline on disconnect.
- Typing indicators and read receipts.
- Edits, soft deletes and forwards.
- The unread counter and last-message summary shown in the chat list.
- Registration.

## How it is built

The database is one value, `Schema.Db`, with seven tables:

- `users`, `chats`, `messages` and `pins` are sequences. Row `i` has primary key `i + 1`.
- `MessageStatus` rows are a map keyed by (message, user).
- `ChatReadState` rows are a map keyed by (chat, user) holding the watermark `last_read_message_id`.
- `UserStatus` rows are a map from user to presence.

`Schema.Valid` collects the integrity rules that the schema and the handlers
keep between them:

- Foreign keys point at existing rows.
- Usernames are unique. E-mail addresses are not: the column has no unique constraint, and registration checks the address as submitted while `create_user` stores it with the domain lower-cased.
- A status row belongs to a member of the message's chat other than the sender.
- `read_at` is set exactly when `read` is.
- Edited messages carry `edited_at`.
- Pins are one-to-one with messages.

State that the source changes in place is imperative Dafny:

- `Store.Store` is the database. Its methods change one table each, except `CreateUser`, which also creates the user's status row. Each method is specified as an exact update of `Snapshot()`.
- `UserModels.UserStatus` is the presence row with its `go_online` / `go_offline` methods.
- `Channels.ChannelLayer` holds group membership, `group_add` / `group_discard`, and an outbox of every `group_send`.
- `Consumer.ChatConsumer` is one connection. Its fields are `chat_id`, `user` and `room_group_name`, plus a connection state and the frames written to its socket.

Each handler that changes state is also written as a pure step function on
`Db`: `AfterSave`, `AfterRead`, `AfterEdit`, `AfterDelete`, `AfterForward`,
`ReceiveStep`, `CreateChatStep`, `RestReadStep`, `CreateStep`, `UpdateStep`,
`DestroyStep` and `RegisterStep`. Each method is proved to perform its step
function exactly. The properties the application promises are proved as
lemmas about those functions, and every step is proved to preserve
`Schema.Valid`.

Files:

- `Common.dfy`: ids, time, `Option`.
- `Text.dfy`: decimal rendering, whitespace trimming, ASCII case folding, substring search.
- `UserModels.dfy`, `ChatModels.dfy`, `MessageModels.dfy`: the records and their methods.
- `Schema.dfy`: the database, its integrity rules and preservation lemmas.
- `Store.dfy`: the mutable store.
- `Channels.dfy`: the channel layer.
- `Consumer.dfy`: the WebSocket consumer.
- `ChatViews.dfy`: chat creation and the REST read endpoint.
- `MessageViews.dfy`: message history, create, update and destroy, search, and pins.
- `ChatSerializers.dfy`: unread count and last message.
- `UserSerializers.dfy`: registration.

Behaviours of the code worth noting:

- Forwarding over the WebSocket creates no delivery statuses (`consumers.py:211-224` only inserts the message).
- The REST read endpoint overwrites the watermark with any value, lower values included. `ChatViews.RestReadCanLowerWatermark` exhibits this.
- An edit or delete over the WebSocket is broadcast even when nothing was changed.
- An exception in `receive` (a forward to a missing chat, an edit of one's own message without a text) ends the connection without running `disconnect`, so the user stays online and the channel stays in its group.
- Registration can store an e-mail address a second time. With `b@x.com` stored, a request for `b@X.com` passes the e-mail check and is stored as `b@x.com` again. `UserSerializers.DomainCaseDuplicatesEmail` exhibits this.

## Model

| member | source | states |
|---|---|---|
| Text.DecimalString | backend/chat_messages/consumers.py:20 | an id renders as a non-empty run of digits with no leading zero |
| Text.ParseDecimalString | backend/chat_messages/consumers.py:20 | reading the rendered digits back gives the id |
| Text.DecimalStringInjective | backend/chat_messages/consumers.py:20 | different ids render differently |
| Text.Take | backend/chat_messages/models.py:25 | `text[:50]` is a prefix: the whole text when it has at most 50 characters, otherwise exactly its first 50 |
| Text.Strip | backend/users/serializers.py:21 | trimming never lengthens, leaves no whitespace at either end, and is empty exactly when the input is all whitespace |
| Text.StripLeft | backend/users/serializers.py:21 | the result is a suffix of the input starting with a non-space, or the input was all whitespace |
| Text.StripRight | backend/users/serializers.py:21 | the result is a prefix of the input ending with a non-space, or the input was all whitespace |
| Text.StripLeftDropsSpace | backend/users/serializers.py:21 | every character that `StripLeft` drops is whitespace |
| Text.StripRightDropsSpace | backend/users/serializers.py:21 | every character that `StripRight` drops is whitespace |
| Text.StripIsSlice | backend/users/serializers.py:21 | the trimmed value is a contiguous slice of the input with only whitespace before and after it |
| Text.StripKeeps | backend/users/serializers.py:21 | trimming keeps every character that is not whitespace |
| Text.Lower | backend/chat_messages/views.py:54 | case folding keeps the length and folds each character on its own |
| Text.LowerIdempotent | backend/chat_messages/views.py:54 | folding twice is folding once |
| Text.ContainsEmpty | backend/chat_messages/views.py:49 | every text contains the default empty query |
| Text.ContainsIndex | backend/chat_messages/views.py:54 | a contained query occurs at some position of the text |
| Text.ContainsAt | backend/chat_messages/views.py:54 | an occurrence at any position means the text contains the query |
| Text.ContainsImpliesIContains | backend/chat_messages/views.py:54 | an exact match is also a case-insensitive match |
| Text.IContainsIgnoresQueryCase | backend/chat_messages/views.py:54 | the case of the query does not matter to `icontains` |
| UserModels.WentOnline | backend/users/models.py:13-15 | going online sets the flag and leaves `last_seen` alone |
| UserModels.WentOffline | backend/users/models.py:17-20 | going offline clears the flag and stamps `last_seen` with the time |
| UserModels.NormalizeEmail | backend/users/serializers.py:42-46 | `create_user`'s e-mail normalisation: the part after the last `@` is lower-cased; an address without `@` is kept |
| UserModels.NormalizeEmailIdempotent | backend/users/serializers.py:42-46 | normalising a normalised address changes nothing |
| UserModels.StoredAsIs | backend/users/serializers.py:42-46 | a trimmed address that lower-casing after its last `@` leaves alone is stored as submitted |
| UserModels.SplitAddress | backend/users/serializers.py:42-46 | an address `local@domain` whose domain has no `@` is lower-cased after the local part |
| UserModels.NormalizeEmailLowerDomain | backend/users/serializers.py:42-46 | an address whose domain is already lower case is stored as submitted |
| UserModels.NormalizeEmailFoldsDomain | backend/users/serializers.py:42-46 | addresses differing only in the case of their domain are stored alike |
| UserModels.GoOnlineIdempotent | backend/users/models.py:13-15 | going online twice is going online once |
| UserModels.GoOfflineForgetsHistory | backend/users/models.py:17-20 | after going offline the row no longer depends on what it held before |
| UserModels.UserStatus.constructor | backend/users/models.py:8-11 | a loaded row holds exactly the stored flag and time |
| UserModels.UserStatus.GoOnline | backend/users/models.py:13-15 | the row afterwards is `WentOnline` of the row before |
| UserModels.UserStatus.GoOffline | backend/users/models.py:17-20 | the row afterwards is `WentOffline` of the row before, at the given time |
| ChatModels.ParseKind | backend/chats/models.py:5-13 | only the two declared codes name a chat type, and each parses to the type with that code |
| ChatModels.ParseKindCode | backend/chats/models.py:5-13 | every type's code parses back to it |
| ChatModels.IsPrivate | backend/chats/models.py:18-19 | a chat is private exactly when its type code is `private` |
| ChatModels.ChatStr | backend/chats/models.py:21-22 | a non-empty name is shown as is; otherwise `Chat <id>` |
| ChatModels.ChatStrFallbackInjective | backend/chats/models.py:21-22 | unnamed chats with different ids are shown differently |
| MessageModels.NewMessage | backend/chat_messages/models.py:6-22 | a new row holds the given columns, is not edited or deleted, and is stamped with the creation time |
| MessageModels.MutationsKeepIdentity | backend/chat_messages/consumers.py:226-247 | edits and deletes never move a message, change its sender or its creation time |
| MessageModels.ToDict | backend/chat_messages/models.py:27-39 | the dictionary shows the placeholder text for a deleted message and the stored text otherwise, with the sender and flags |
| MessageModels.ToDictHidesTextOfDeleted | backend/chat_messages/models.py:28 | a deleted message shows the placeholder even after a later edit |
| MessageModels.ToDictIgnoresForwarding | backend/chat_messages/models.py:27-39 | forwarding metadata never appears in the dictionary |
| MessageModels.MessageStr | backend/chat_messages/models.py:24-25 | `sender: ` followed by the text when it has at most 50 characters, otherwise by exactly its first 50 |
| MessageModels.DeliveredStatus | backend/chat_messages/consumers.py:176-181 | a new status is delivered at the given time and unread |
| MessageModels.MarkedRead | backend/chat_messages/consumers.py:206-209 | marking read sets `read` and `read_at` and keeps the delivery columns |
| Schema.PresenceOf | backend/chat_messages/consumers.py:252 | a user without a status row reads as the row `get_or_create` would make: offline, never seen |
| Schema.ReadRows | backend/chats/views.py:60-61 | exactly one read state per member of the new chat, each at watermark 0 |
| Schema.MemberChats | backend/chat_messages/consumers.py:261-266 | exactly the ids of the chats the user belongs to, each once |
| Schema.DeliveredRows | backend/chat_messages/consumers.py:174-181 | exactly one delivered status per recipient of the message |
| Schema.StatusesAfterMarkRead | backend/chat_messages/consumers.py:201-209 | the bulk update marks read exactly this user's unread statuses in the chat up to the given id, and nothing else |
| Schema.MarkReadMonotone | backend/chat_messages/consumers.py:201-209 | the bulk update never turns a read status back to unread and keeps its `read_at` |
| Schema.AddUserValid | backend/users/serializers.py:31-47 | inserting a user with a fresh username, with its status row, keeps the database valid |
| Schema.AddChatValid | backend/chats/views.py:37-38 | inserting a well-formed chat keeps the database valid |
| Schema.AddMessageValid | backend/chat_messages/consumers.py:168-172 | inserting a well-formed message keeps the database valid |
| Schema.ReplaceMessageValid | backend/chat_messages/views.py:36-45 | rewriting a message without moving it keeps the database valid |
| Schema.EditRowValid | backend/chat_messages/consumers.py:227-236 | an edit of one row keeps the database valid |
| Schema.DeleteRowValid | backend/chat_messages/consumers.py:238-247 | a soft delete of one row keeps the database valid |
| Schema.AddDeliveredValid | backend/chat_messages/consumers.py:174-181 | adding the delivered statuses of a message keeps the database valid |
| Schema.MarkReadValid | backend/chat_messages/consumers.py:201-209 | the bulk read update keeps the database valid |
| Schema.SetReadStateValid | backend/chat_messages/consumers.py:192-199 | writing a member's watermark keeps the database valid |
| Schema.NewChatReadStatesValid | backend/chats/views.py:60-61 | adding the read states of a new chat's members keeps the database valid |
| Store.Store.CreateUser | backend/users/serializers.py:41-47 | one user appended with the normalised e-mail, and its offline status row created, validity kept |
| Store.Store.CreateChat | backend/chats/views.py:37-38 | one chat appended, validity kept |
| Store.Store.CreateMessage | backend/chat_messages/consumers.py:168-172 | one message appended with its defaults, validity kept |
| Store.Store.CreateDeliveredStatuses | backend/chat_messages/consumers.py:174-181 | the status table gains exactly one delivered row per member other than the sender, validity kept |
| Store.Store.InsertDelivered | backend/chat_messages/consumers.py:175-181 | the loop inserts exactly one delivered row per recipient |
| Store.Store.GetOrCreateReadState | backend/chat_messages/consumers.py:192-195 | returns the stored watermark, creating the row at 0 when missing |
| Store.Store.CreateReadStates | backend/chats/views.py:60-61 | the loop creates exactly one read state per member of the new chat, validity kept |
| Store.Store.InsertReadStates | backend/chats/views.py:60-61 | the loop adds exactly the rows of `ReadRows` |
| Store.Store.WriteReadState | backend/chat_messages/consumers.py:197-199 | overwrites one read state and nothing else |
| Store.Store.MarkStatusesRead | backend/chat_messages/consumers.py:201-209 | the status table becomes `StatusesAfterMarkRead`, validity kept |
| Store.Store.WriteMessage | backend/chat_messages/views.py:42-45 | replaces one message row and nothing else |
| Store.Store.SetOnline | backend/chat_messages/consumers.py:249-253 | the user's row becomes `WentOnline` of the stored or default row |
| Store.Store.SetOffline | backend/chat_messages/consumers.py:255-259 | the user's row becomes `WentOffline` of the stored or default row |
| Channels.Added | backend/chat_messages/consumers.py:21 | `group_add` adds the channel to that group only |
| Channels.Discarded | backend/chat_messages/consumers.py:30 | `group_discard` removes the channel from that group only, a no-op when absent |
| Channels.AddThenDiscard | backend/chat_messages/consumers.py:21-30 | joining then leaving a group restores every group's membership, for a channel not already in the group |
| Channels.ChannelLayer.GroupAdd | backend/chat_messages/consumers.py:21 | the membership becomes `Added` |
| Channels.ChannelLayer.GroupDiscard | backend/chat_messages/consumers.py:30 | the membership becomes `Discarded` |
| Channels.ChannelLayer.GroupSend | backend/chat_messages/consumers.py:37-47 | one send is appended, addressed to the group's current subscribers |
| Consumer.GroupNameInjective | backend/chat_messages/consumers.py:20 | two chats never share a group name |
| Consumer.Outbound | backend/chat_messages/consumers.py:112-158 | each event becomes its frame, with `forwarded` false when absent; only a user's own typing event is dropped |
| Consumer.OutboundWireType | backend/chat_messages/consumers.py:112-158 | each frame carries the wire `type` of its event |
| Consumer.TypingFanout | backend/chat_messages/consumers.py:124-131 | a typing event reaches every subscriber except the typist's connections |
| Consumer.SaveMessageStatuses | backend/chat_messages/consumers.py:166-183 | sending stores one message and one delivered status per other member, keeps every old status, and keeps validity |
| Consumer.Advanced | backend/chat_messages/consumers.py:197-199 | the watermark after a read is the larger of the old one and the id |
| Consumer.AfterRead | backend/chat_messages/consumers.py:185-209 | a read changes only the read states and statuses; an id of 0 or less changes nothing |
| Consumer.AfterReadWatermark | backend/chat_messages/consumers.py:189-199 | the watermark moves to the maximum of itself and the id; no other watermark changes |
| Consumer.AfterReadStatuses | backend/chat_messages/consumers.py:197-209 | read statuses stay read and other users' stay put; an advancing read marks every status up to the id read; a stale read changes no status |
| Consumer.AfterReadValid | backend/chat_messages/consumers.py:185-209 | a read keeps the database valid |
| Consumer.ReplayIsMaximum | backend/chat_messages/consumers.py:197-199 | after a series of reads the watermark is the maximum of the start and all ids |
| Consumer.ReplayOrderIndependent | backend/chat_messages/consumers.py:197-199 | the order in which reads arrive does not change the final watermark |
| Consumer.AfterReads | backend/chat_messages/consumers.py:185-209 | a series of reads never changes chats or users |
| Consumer.AfterReadsWatermark | backend/chat_messages/consumers.py:197-199 | a series of reads leaves the watermark at the replayed maximum |
| Consumer.EditDeleteOnlyOwn | backend/chat_messages/consumers.py:226-247 | edits and deletes change only the caller's own named message, and no other table |
| Consumer.ForwardValid | backend/chat_messages/consumers.py:211-224 | a forward into an existing chat keeps the database valid |
| Consumer.EditValid | backend/chat_messages/consumers.py:226-236 | an edit keeps the database valid |
| Consumer.DeleteValid | backend/chat_messages/consumers.py:238-247 | a delete keeps the database valid |
| Consumer.ReceiveStepValid | backend/chat_messages/consumers.py:32-110 | every inbound event keeps the database valid |
| Consumer.MessageBroadcast | backend/chat_messages/consumers.py:35-47 | a message is stored and one `chat_message` with its new id goes to the room, rendered as not forwarded |
| Consumer.TypingPersistsNothing | backend/chat_messages/consumers.py:49-58 | typing stores nothing and broadcasts the flag, true by default |
| Consumer.ReadBroadcastsClientValue | backend/chat_messages/consumers.py:60-69 | a stale read changes nothing yet broadcasts the client's value, not the stored watermark |
| Consumer.ForeignEditDeleteStillBroadcast | backend/chat_messages/consumers.py:91-110 | editing or deleting someone else's message changes nothing but is still broadcast |
| Consumer.EditWithoutTextRaises | backend/chat_messages/consumers.py:91-92 | an edit of one's own message without a text fails at the database and sends nothing |
| Consumer.ForwardEffects | backend/chat_messages/consumers.py:71-89 | an unknown source is ignored; an unknown target fails; otherwise one copy goes into the target chat, is announced to the target's group, and no status is created |
| Consumer.UnknownKindIgnored | backend/chat_messages/consumers.py:35-110 | an unknown event type changes nothing and sends nothing |
| Consumer.StatusSends | backend/chat_messages/consumers.py:268-279 | one `user_status` send per chat id, in order, to that chat's group |
| Consumer.StatusSendsOnePerChat | backend/chat_messages/consumers.py:261-279 | a presence change reaches exactly the user's chats, each once, all with the same event |
| Consumer.StatusSendsDistinct | backend/chat_messages/consumers.py:271-279 | distinct chat ids give sends to distinct groups |
| Consumer.WithOnline | backend/chat_messages/consumers.py:249-253 | the user is online with `last_seen` untouched; nobody else's row changes |
| Consumer.WithOffline | backend/chat_messages/consumers.py:255-259 | the user is offline, last seen now; nobody else's row changes |
| Consumer.ChatConsumer.Connect | backend/chat_messages/consumers.py:7-25 | a missing user or a non-member is refused with nothing changed; a member joins the room, goes online and announces it to every chat |
| Consumer.ChatConsumer.Disconnect | backend/chat_messages/consumers.py:27-30 | the user goes offline, this is announced to every chat, and the channel leaves the room |
| Consumer.ChatConsumer.NotifyStatus | backend/chat_messages/consumers.py:268-279 | the loop appends exactly `StatusSends` over the user's chats |
| Consumer.ChatConsumer.SaveMessage | backend/chat_messages/consumers.py:166-183 | the store becomes `AfterSave` and the new id is returned |
| Consumer.ChatConsumer.UpdateReadState | backend/chat_messages/consumers.py:185-209 | the store becomes `AfterRead` |
| Consumer.ChatConsumer.ForwardMessage | backend/chat_messages/consumers.py:211-224 | unknown source: nothing; unknown target: an error; otherwise the store becomes `AfterForward` |
| Consumer.ChatConsumer.EditMessage | backend/chat_messages/consumers.py:226-236 | the store becomes `AfterEdit`; a missing text fails exactly when a row of the caller matches |
| Consumer.ChatConsumer.DeleteMessage | backend/chat_messages/consumers.py:238-247 | the store becomes `AfterDelete` |
| Consumer.ChatConsumer.Receive | backend/chat_messages/consumers.py:32-110 | the store and the outbox change exactly as `ReceiveStep` says; a raised event closes the connection, any other leaves it joined |
| Consumer.ChatConsumer.ReceiveMessage | backend/chat_messages/consumers.py:35-47 | the `"message"` branch: store and outbox as `ReceiveStep` gives for a new message, validity kept |
| Consumer.ChatConsumer.ReceiveRead | backend/chat_messages/consumers.py:60-68 | the `"read"` branch: store and outbox as `ReceiveStep` gives for a read event, validity kept |
| Consumer.ChatConsumer.ReceiveForward | backend/chat_messages/consumers.py:70-88 | the `"forward"` branch: store, outbox and outcome as `ReceiveStep` gives; a forward to a missing chat raises and closes the connection, any other leaves it joined |
| Consumer.ChatConsumer.ReceiveEdit | backend/chat_messages/consumers.py:90-98 | the `"edit"` branch: store, outbox and outcome as `ReceiveStep` gives; an edit that raises closes the connection, any other leaves it joined |
| Consumer.ChatConsumer.ReceiveDelete | backend/chat_messages/consumers.py:100-108 | the `"delete"` branch: store and outbox as `ReceiveStep` gives |
| Consumer.ChatConsumer.Handle | backend/chat_messages/consumers.py:112-158 | the socket gets the `Outbound` frame, and nothing for the user's own typing |
| ChatViews.FindPrivateFrom | backend/chats/views.py:29-32 | the first private chat after a position that holds both users, or none |
| ChatViews.FindPrivateChat | backend/chats/views.py:29-32 | the lowest-id private chat holding both users, and none exactly when there is no such chat |
| ChatViews.FoundUsers | backend/chats/views.py:45-46 | exactly the listed ids that name existing users |
| ChatViews.PrivateUnknownUser | backend/chats/views.py:25-27 | naming a missing user gives 404 and changes nothing |
| ChatViews.PrivateDeduplicated | backend/chats/views.py:29-35 | an existing private chat of the pair is returned, unchanged |
| ChatViews.PrivateCreated | backend/chats/views.py:37-43 | otherwise a new private chat of the pair is appended with both read states at 0; no other table or chat's read state changes |
| ChatViews.PrivateCreateIdempotent | backend/chats/views.py:24-43 | asking again for the same private chat returns the one just created |
| ChatViews.GroupWithoutUsers | backend/chats/views.py:45-52 | a group naming no existing user gives 400 and changes nothing |
| ChatViews.GroupCreated | backend/chats/views.py:54-63 | a group holds exactly the requester and the existing listed users, each with a read state at 0; it is the one chat appended, and no other table or chat's read state changes |
| ChatViews.CreateChatValid | backend/chats/views.py:19-63 | chat creation keeps the database valid |
| ChatViews.RestReadRejects | backend/chats/views.py:65-76 | a non-member gets 404 and a missing value 400, with nothing changed |
| ChatViews.RestReadOverwrites | backend/chats/views.py:78-85 | the watermark becomes the value sent, and nothing else changes |
| ChatViews.RestReadCanLowerWatermark | backend/chats/views.py:78-83 | for every member and every value below their current watermark, the endpoint answers 200 and the watermark drops to that value |
| ChatViews.RestReadValid | backend/chats/views.py:65-85 | the read endpoint keeps the database valid |
| ChatViews.Create | backend/chats/views.py:19-63 | the store and reply are those of `CreateChatStep` |
| ChatViews.CreatePrivate | backend/chats/views.py:24-43 | the store and reply are those of `CreateChatStep` for a private request |
| ChatViews.CreateGroup | backend/chats/views.py:45-63 | the store and reply are those of `CreateChatStep` for a group request |
| ChatViews.UpdateReadState | backend/chats/views.py:65-85 | the store and reply are those of `RestReadStep` |
| MessageViews.SortNewest | backend/chat_messages/views.py:20 | ordering by `-created_at` is a permutation, newest first |
| MessageViews.History | backend/chat_messages/views.py:13-21 | without `chat` nothing; otherwise exactly the chat's non-deleted messages when the requester is a member, each once, newest first |
| MessageViews.HistoryNeedsMembership | backend/chat_messages/views.py:16-19 | a non-member's history is empty |
| MessageViews.Lookup | backend/chat_messages/views.py:13-21 | update and destroy find a message exactly when it is a non-deleted message of the named chat and the requester is a member |
| MessageViews.LookupIsHistory | backend/chat_messages/views.py:13-21 | the messages update and destroy can find are exactly those the history query lists |
| MessageViews.CreateErrors | backend/chat_messages/serializers.py:19-35 | `chat` must name a chat, `text` must be present, not blank and free of U+0000, and `forwarded_from` must name a message when given |
| MessageViews.NullCharacterInTextRefused | backend/chat_messages/serializers.py:19-35 | a `text` containing U+0000 is refused on create, and on update it changes nothing and is not accepted |
| MessageViews.CreateEffects | backend/chat_messages/views.py:23-34 | an invalid create changes nothing; a valid one stores the requester's trimmed message and one delivered status per other member, keeping the old statuses; no other status row appears and no other table changes |
| MessageViews.CreateValid | backend/chat_messages/views.py:23-34 | create keeps the database valid |
| MessageViews.UpdateEffects | backend/chat_messages/views.py:36-40 | update sets the trimmed text, flags the message edited at now, and touches no other message |
| MessageViews.DestroyEffects | backend/chat_messages/views.py:42-45 | destroy keeps the row, flags it deleted with the placeholder text, and drops it from the history |
| MessageViews.UpdateDestroyNeedLookup | backend/chat_messages/views.py:13-21 | a message outside the history query gives 404 and nothing changes |
| MessageViews.UpdateValid | backend/chat_messages/views.py:36-40 | update keeps the database valid |
| MessageViews.DestroyValid | backend/chat_messages/views.py:42-45 | destroy keeps the database valid |
| MessageViews.Search | backend/chat_messages/views.py:47-59 | at most 50 results, each a non-deleted message of one of the requester's chats containing the query case-insensitively; all matches when fewer than 50 |
| MessageViews.Cap | backend/chat_messages/views.py:56 | the `[:50]` slice keeps at most 50 leading results, all of them when there are fewer |
| MessageViews.EmptyQueryMatchesAll | backend/chat_messages/views.py:49-55 | without `q` every non-deleted message of the requester's chats matches |
| MessageViews.PinnedList | backend/chat_messages/views.py:65-69 | exactly the pins of the requester's chats, restricted to one chat when `chat` is given |
| MessageViews.Create | backend/chat_messages/views.py:23-34 | the store and reply are those of `CreateStep` |
| MessageViews.Update | backend/chat_messages/views.py:36-40 | the store and reply are those of `UpdateStep` |
| MessageViews.Destroy | backend/chat_messages/views.py:42-45 | the store and reply are those of `DestroyStep` |
| ChatSerializers.UnreadUpTo | backend/chats/serializers.py:28-31 | the count over the first n ids is at most n |
| ChatSerializers.UnreadCount | backend/chats/serializers.py:23-31 | a user without a read state counts from watermark 0 |
| ChatSerializers.UnreadPositive | backend/chats/serializers.py:28-31 | the count is positive exactly when some message of another sender lies above the watermark |
| ChatSerializers.UnreadMonotone | backend/chats/serializers.py:28-31 | raising the watermark never raises the count |
| ChatSerializers.UnreadCaughtUp | backend/chats/serializers.py:28-31 | a watermark at or above every id counts nothing |
| ChatSerializers.UnreadSameIdentity | backend/chats/serializers.py:28-31 | the count depends only on each message's chat and sender |
| ChatSerializers.NewMessageAndUnread | backend/chats/serializers.py:31 | one's own new message never counts; another member's adds exactly one when the watermark is not ahead of the table |
| ChatSerializers.ReplaceKeepsUnread | backend/chats/serializers.py:28-31 | edits and soft deletes leave the count unchanged, deleted messages still counting |
| ChatSerializers.UnreadCountWatermark | backend/chats/serializers.py:25-31 | once the watermark reaches the last id the count is 0, and a higher watermark never counts more |
| ChatSerializers.LastUpTo | backend/chats/serializers.py:34 | the highest id of the chat among the first n messages, none exactly when there is none |
| ChatSerializers.LastMessage | backend/chats/serializers.py:34 | none exactly when the chat has no message; otherwise the chat's message with the largest id |
| ChatSerializers.NewMessageIsLast | backend/chats/serializers.py:34 | a new message becomes its chat's last message and leaves other chats' alone |
| ChatSerializers.LastMessageOf | backend/chats/serializers.py:33-40 | none exactly when there is no last message; otherwise its id, stored text, sender's username and time |
| ChatSerializers.DeletedLastMessageShowsPlaceholder | backend/chats/serializers.py:33-40 | deleting the last message keeps it last, shown with the placeholder text |
| ChatSerializers.ListRow | backend/chats/serializers.py:6-21 | a chat-list row carries the chat's id, type code, name, members, creation time, unread count and last message |
| UserSerializers.RegistrationErrors | backend/users/serializers.py:20-39 | username required, at most 150 characters and unused; e-mail required and unused; password at least 8 characters; each checked after trimming and refused when blank or containing U+0000 |
| UserSerializers.NullCharacterRefused | backend/users/serializers.py:20-29 | a username, e-mail or password containing U+0000 is refused on that field |
| UserSerializers.RegisterEffects | backend/users/serializers.py:41-47 | a refused registration changes nothing; an accepted one adds exactly one user with the trimmed username and the normalised trimmed e-mail, offline (the only new presence entry), and nothing else |
| UserSerializers.DuplicatesRefused | backend/users/serializers.py:31-39 | a taken username or e-mail is always refused |
| UserSerializers.RegisteredIsTaken | backend/users/serializers.py:31-47 | after an accepted registration the username is taken, and the submitted address is taken exactly when normalisation left it unchanged |
| UserSerializers.TakenWithUser | backend/users/serializers.py:31-39 | after a user is added, a name or address is taken exactly when it was taken before or is the new user's |
| UserSerializers.UsernameRefusedErrors | backend/users/serializers.py:31-39 | with a refused username and well-formed other fields, the errors are the username, plus the e-mail exactly when it is taken |
| UserSerializers.RegisterTwiceRefused | backend/users/serializers.py:31-47 | repeating an accepted registration is refused and changes nothing; always on the username, and on the e-mail exactly when the address was stored as submitted |
| UserSerializers.AcceptedWhenValid | backend/users/serializers.py:31-47 | a request passing all three field checks is accepted and adds the new user |
| UserSerializers.DomainCaseDuplicatesEmail | backend/users/serializers.py:36-46 | with `local@d2` stored, a request for `local@d1` whose domain folds to `d2` is accepted and stores the same address again |
| UserSerializers.UpperCaseDomainChanges | backend/users/serializers.py:42-46 | an address whose domain has an upper-case letter is not stored as submitted |
| UserSerializers.RegisterValid | backend/users/serializers.py:41-47 | registration keeps the database valid |
| UserSerializers.Register | backend/users/serializers.py:20-47 | the store and reply are those of `RegisterStep` |

## Left out

- Async execution and the channel layer's delivery. The `await` interleavings, `database_sync_to_async` threads and the ordering of fan-out to sockets are not modelled. Concurrent consumers run one at a time, each event atomically. A `group_send` is an entry in an outbox addressed to the group's subscribers at that moment.
- JSON parsing and rendering. Inbound events are a datatype whose fields are `Option`s, so a missing key is `None`. Outbound frames are a datatype too. `isoformat()` is not modelled, and times are integers.
- JSON `null` values are read as missing keys, so they get the defaults. In the source `"text": null` fails at the non-null `text` column (`consumers.py:36`, `168-172`), `"last_read_message_id": null` raises `TypeError` (`consumers.py:189`), and `"is_typing": null` is broadcast as null (`consumers.py:56`).
- Consumer.AfterRead: the watermark is an unbounded `nat`. The column is a `PositiveIntegerField` (`chats/models.py:27`), so a value above 2147483647 fails at the database (`consumers.py:197-199`). The model stores it. The same holds for ChatViews.RestReadStep (`chats/views.py:82-83`).
- Schema.MemberChats: the source's queries have no ordering (`consumers.py:261-266`, `chats/views.py:15-16`), so the database chooses the order. The model takes ascending ids. This also fixes the order of the `user_status` sends of `Connect` and `Disconnect`.
- A frame without `type` raises `KeyError` at `consumers.py:35` and closes the socket. The model starts from a decoded event that has a kind.
- `disconnect` after a refused `connect`. For an authenticated non-member it still runs `set_offline` and `notify_status(False)`, so the user is marked offline and announced as offline to every chat they belong to, and only then fails on the unset `room_group_name` (`consumers.py:27-30`, `255-259`, `268-279`). `Consumer.ChatConsumer.Disconnect` is modelled from the joined state only, so this effect is not modelled.
- JWT authentication and query-string token extraction. `scope["user"]` is an input `Option<UserId>`.
- URL and routing configuration. The URL configuration's import of an undefined `ChatMessageViewSet` is not part of this model.
- `Chat.to_dict` is called by the chat views but is not defined in the models. The chat list and create endpoints are modelled as returning the chat id. The list endpoint's rows are `Schema.MemberChats`.
- `ChatCreateSerializer` is imported by the chat views but is not defined in the serializers. The create request is modelled as already validated into the private and group shapes.
- Admin modules, the user read-only views, the `post_save` signal, and `RegisterResponseSerializer` (token issuing) are left out. The signal's effect, one status row per new user, is part of `Store.Store.CreateUser`.
- Deleting users, chats or messages in the database is not modelled: `CASCADE`, and `SET_NULL` on `forwarded_from`, `forwarded_by` and `pinned_by`. The message, chat and user handlers never hard-delete.
- Pin creation (`PinnedMessageViewSet.perform_create`) is not modelled. Nor are the pin update and destroy that `PinnedMessageViewSet` inherits as a `ModelViewSet` (`chat_messages/views.py:61`); destroy hard-deletes a pin row. Only the pinned listing is modelled.
- MessageViews.UpdateStep: models a partial update that carries at most a new text. The serializer would also accept new `chat` and `forwarded_from` values, which the model does not move.
- MessageViews.PinnedList: `PinnedMessage` declares no ordering and both querysets are unordered (chat_messages/views.py:65-69), so the database chooses the order. The model takes the pins in id order, so its second ensures (ascending ids) holds of the model only.
- MessageViews.Search: the source slices an unordered queryset, so which 50 matches come back is up to the database. The model takes them in id order, so the last ensures (every match below the last returned id is included) holds of the model only.
- Text.Lower: folds ASCII letters only. The database's Unicode case folding for `icontains` is not modelled.
- Text.Strip: trims ASCII whitespace and the separators U+001C to U+001F. Python's other Unicode whitespace is not modelled.
- Username and e-mail validators: the username character class and the e-mail format check are not modelled. The null-character check that every `CharField` carries is modelled. Neither is `create_user`'s NFKC normalisation of the username, nor password hashing. Its e-mail normalisation is `UserModels.NormalizeEmail`, with ASCII case folding only. The model keeps no password.
- Every handler reads one `now` per request. The source calls `timezone.now()` once per row, so the model gives all rows of one request the same time.
- No locking is modelled. Neither is the compare-and-set on the watermark that concurrent reads would need, which the source does not implement either.
- Query parameters that are not integers, such as `?chat=abc`, are outside the model, because the database would reject them. So is a non-integer `last_read_message_id`.
- The WebSocket forward creates no delivery statuses. This follows the code at `consumers.py:211-224`.
- An edit over the WebSocket also applies to a message that is already deleted, as the code does. The REST endpoints cannot reach a deleted message.
