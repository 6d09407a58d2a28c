/** The database as one value: every table the core reads or writes, the
    integrity rules the schema and the handlers keep, and the queries shared by
    the WebSocket consumer and the REST views. Rows are never hard-deleted by
    the core, so each auto-increment table is a sequence whose row `i` has
    primary key `i + 1`; tables with a composite unique key are maps keyed by it,
    which makes the `unique_together` constraints hold by construction. */
module Schema {
  import opened Common
  import opened UserModels
  import opened ChatModels
  import opened MessageModels

  /** `MessageStatus` is unique per (message, user). */
  datatype StatusKey = StatusKey(message: MessageId, user: UserId)

  /** `ChatReadState` is unique per (chat, user). */
  datatype ReadKey = ReadKey(chat: ChatId, user: UserId)

  datatype Db = Db(
    users: seq<User>,
    chats: seq<Chat>,
    messages: seq<Message>,
    statuses: map<StatusKey, MessageStatus>,
    readStates: map<ReadKey, nat>,
    pins: seq<Pin>,
    presence: map<UserId, Presence>)

  const EMPTY := Db([], [], [], map[], map[], [], map[])

  predicate UserExists(db: Db, u: int) { 1 <= u <= |db.users| }
  predicate ChatExists(db: Db, c: int) { 1 <= c <= |db.chats| }
  predicate MessageExists(db: Db, m: int) { 1 <= m <= |db.messages| }

  function ChatOf(db: Db, c: int): Chat
    requires ChatExists(db, c)
  {
    db.chats[c - 1]
  }

  function MessageOf(db: Db, m: int): Message
    requires MessageExists(db, m)
  {
    db.messages[m - 1]
  }

  /** `Chat.objects.filter(id=c, members=u).exists()`. */
  predicate IsMember(db: Db, c: int, u: UserId) {
    ChatExists(db, c) && u in ChatOf(db, c).members
  }

  /** `User.objects.filter(username=name).exists()`. */
  predicate UsernameTaken(db: Db, name: string) {
    exists i :: 0 <= i < |db.users| && db.users[i].username == name
  }

  /** `User.objects.filter(email=email).exists()`. */
  predicate EmailTaken(db: Db, email: string) {
    exists i :: 0 <= i < |db.users| && db.users[i].email == email
  }

  // ---------------------------------------------------------------- integrity

  /** Usernames are unique (the column's unique constraint). E-mail addresses
      are not: the column has no such constraint, and registration checks the
      address before `create_user` lower-cases its domain. */
  ghost predicate UsersOk(db: Db) {
    forall i, j :: 0 <= i < |db.users| && 0 <= j < |db.users| && i != j ==>
      db.users[i].username != db.users[j].username
  }

  /** Members are existing users and a chat has at least one; a private chat
      has at most two (one when a user opens a chat with themself). */
  predicate ChatOk(db: Db, c: Chat) {
    && (forall u :: u in c.members ==> UserExists(db, u))
    && |c.members| >= 1
    && (c.kind == Private ==> |c.members| <= 2)
  }

  ghost predicate ChatsOk(db: Db) {
    forall i :: 0 <= i < |db.chats| ==> ChatOk(db, db.chats[i])
  }

  /** Foreign keys resolve; a forward points at an older message; the edit flag
      and the edit timestamp are set together. */
  predicate MessageOk(db: Db, id: MessageId, m: Message) {
    && ChatExists(db, m.chat)
    && UserExists(db, m.sender)
    && (m.forwardedFrom.Some? ==> 1 <= m.forwardedFrom.value < id)
    && (m.forwardedBy.Some? ==> UserExists(db, m.forwardedBy.value))
    && (m.isEdited <==> m.editedAt.Some?)
  }

  ghost predicate MessagesOk(db: Db) {
    forall i :: 0 <= i < |db.messages| ==> MessageOk(db, i + 1, db.messages[i])
  }

  /** A status row belongs to an existing message and to a member of its chat
      other than the sender; it was delivered when created, and `read_at` is
      set exactly when `read` is. */
  predicate StatusOk(db: Db, k: StatusKey, s: MessageStatus) {
    && MessageExists(db, k.message)
    && k.user != MessageOf(db, k.message).sender
    && IsMember(db, MessageOf(db, k.message).chat, k.user)
    && s.delivered && s.deliveredAt.Some?
    && (s.read <==> s.readAt.Some?)
  }

  ghost predicate StatusesOk(db: Db) {
    forall k :: k in db.statuses ==> StatusOk(db, k, db.statuses[k])
  }

  /** Read states exist only for members of the chat. */
  ghost predicate ReadStatesOk(db: Db) {
    forall k :: k in db.readStates ==> IsMember(db, k.chat, k.user)
  }

  ghost predicate PinsOk(db: Db) {
    && PinsOneToOne(db.pins)
    && forall i :: 0 <= i < |db.pins| ==> MessageExists(db, db.pins[i].message) && ChatExists(db, db.pins[i].chat)
  }

  /** A new read-state row at the default watermark for every member. */
  function ReadRows(c: ChatId, members: set<UserId>): (rows: map<ReadKey, nat>)
    ensures forall k :: k in rows <==> k.chat == c && k.user in members
    ensures forall k :: k in rows ==> rows[k] == DEFAULT_WATERMARK
  {
    map u | u in members :: ReadKey(c, u) := DEFAULT_WATERMARK
  }

  /** `UserStatus` rows belong to existing users, at most one each (the key). */
  ghost predicate PresenceRowsOk(db: Db) {
    forall u :: u in db.presence ==> UserExists(db, u)
  }

  ghost predicate Valid(db: Db) {
    && UsersOk(db) && ChatsOk(db) && MessagesOk(db) && StatusesOk(db) && ReadStatesOk(db) && PinsOk(db)
    && PresenceRowsOk(db)
  }

  /** What `UserStatus.objects.get_or_create(user=u)` yields: the stored row,
      or a new one with the field defaults. */
  function PresenceOf(db: Db, u: UserId): (p: Presence)
    ensures u !in db.presence ==> p == INITIAL_PRESENCE
  {
    if u in db.presence then db.presence[u] else INITIAL_PRESENCE
  }

  lemma EmptyValid()
    ensures Valid(EMPTY)
  {
  }

  lemma StatusMessageExists(db: Db, k: StatusKey)
    requires Valid(db) && k in db.statuses
    ensures MessageExists(db, k.message) && ChatExists(db, MessageOf(db, k.message).chat)
  {
  }

  // ---------------------------------------------------------------- queries

  /** The ids of the chats `u` belongs to, ascending: `Chat.objects.filter(members=u)`
      (`get_user_chat_ids` in the consumer, the `list` view over REST). */
  function MemberChats(db: Db, u: UserId): (ids: seq<ChatId>)
    ensures forall c :: c in ids <==> IsMember(db, c, u)
    ensures forall i, j :: 0 <= i < j < |ids| ==> ids[i] < ids[j]
  {
    MemberChatsUpTo(db, u, |db.chats|)
  }

  /** Membership queries read only the chats table. */
  lemma MemberChatsReadsChats(db: Db, db': Db, u: UserId)
    requires db.chats == db'.chats
    ensures MemberChats(db, u) == MemberChats(db', u)
  {
    MemberChatsUpToReadsChats(db, db', u, |db.chats|);
  }

  lemma {:induction false} MemberChatsUpToReadsChats(db: Db, db': Db, u: UserId, n: nat)
    requires db.chats == db'.chats && n <= |db.chats|
    ensures MemberChatsUpTo(db, u, n) == MemberChatsUpTo(db', u, n)
    decreases n
  {
    if n > 0 {
      MemberChatsUpToReadsChats(db, db', u, n - 1);
    }
  }

  function MemberChatsUpTo(db: Db, u: UserId, n: nat): (ids: seq<ChatId>)
    requires n <= |db.chats|
    ensures forall c :: c in ids <==> 1 <= c <= n && IsMember(db, c, u)
    ensures forall i, j :: 0 <= i < j < |ids| ==> ids[i] < ids[j]
    decreases n
  {
    if n == 0 then []
    else
      var prefix := MemberChatsUpTo(db, u, n - 1);
      assert forall i :: 0 <= i < |prefix| ==> prefix[i] < n by {
        forall i | 0 <= i < |prefix| ensures prefix[i] < n {
          assert prefix[i] in prefix;
        }
      }
      prefix + (if u in db.chats[n - 1].members then [n] else [])
  }

  /** The broadcast recipients of delivery statuses: the chat's members except the sender. */
  function Recipients(db: Db, mid: MessageId): set<UserId>
    requires MessageExists(db, mid) && ChatExists(db, MessageOf(db, mid).chat)
  {
    ChatOf(db, MessageOf(db, mid).chat).members - {MessageOf(db, mid).sender}
  }

  /** One delivered status row per recipient of message `mid`. */
  function DeliveredRows(mid: MessageId, recipients: set<UserId>, now: Time): (rows: map<StatusKey, MessageStatus>)
    ensures forall k :: k in rows <==> k.message == mid && k.user in recipients
    ensures forall k :: k in rows ==> rows[k] == DeliveredStatus(now)
  {
    map u | u in recipients :: StatusKey(mid, u) := DeliveredStatus(now)
  }

  /** The user's read watermark in a chat; a missing read state reads as 0. */
  function Watermark(db: Db, c: ChatId, u: UserId): nat {
    var k := ReadKey(c, u);
    if k in db.readStates then db.readStates[k] else DEFAULT_WATERMARK
  }

  /** The rows the consumer's bulk update touches: this user's unread statuses for
      messages of chat `c` with id at most `upTo`. */
  predicate ReadTarget(db: Db, k: StatusKey, s: MessageStatus, c: ChatId, u: UserId, upTo: int) {
    k.user == u && !s.read && k.message <= upTo
    && MessageExists(db, k.message) && MessageOf(db, k.message).chat == c
  }

  /** `MessageStatus.objects.filter(message__chat_id=c, message_id__lte=upTo,
      user=u, read=False).update(read=True, read_at=now)`. */
  function StatusesAfterMarkRead(db: Db, c: ChatId, u: UserId, upTo: int, now: Time): (r: map<StatusKey, MessageStatus>)
    ensures r.Keys == db.statuses.Keys
    ensures forall k :: k in r && ReadTarget(db, k, db.statuses[k], c, u, upTo) ==> r[k] == MarkedRead(db.statuses[k], now)
    ensures forall k :: k in r && !ReadTarget(db, k, db.statuses[k], c, u, upTo) ==> r[k] == db.statuses[k]
  {
    map k | k in db.statuses ::
      if ReadTarget(db, k, db.statuses[k], c, u, upTo) then MarkedRead(db.statuses[k], now) else db.statuses[k]
  }

  /** The bulk update never un-reads a row, and afterwards every status of `u`
      for a message of `c` up to `upTo` is read. */
  lemma {:induction false} MarkReadMonotone(db: Db, c: ChatId, u: UserId, upTo: int, now: Time)
    ensures var r := StatusesAfterMarkRead(db, c, u, upTo, now);
      && (forall k :: k in db.statuses && db.statuses[k].read ==> r[k] == db.statuses[k])
      && (forall k :: (k in r && k.user == u && k.message <= upTo && MessageExists(db, k.message)
            && MessageOf(db, k.message).chat == c) ==> r[k].read)
      && (forall k :: k in r && k.user != u ==> r[k] == db.statuses[k])
  {
  }

  // ---------------------------------------------------------------- preservation

  /** A new user together with the `UserStatus` row its `post_save` hook creates. */
  lemma AddUserValid(db: Db, x: User)
    requires Valid(db) && !UsernameTaken(db, x.username)
    ensures Valid(db.(users := db.users + [x], presence := db.presence[|db.users| + 1 := INITIAL_PRESENCE]))
  {
    var db' := db.(users := db.users + [x], presence := db.presence[|db.users| + 1 := INITIAL_PRESENCE]);
    forall i, j | 0 <= i < |db'.users| && 0 <= j < |db'.users| && i != j
      ensures db'.users[i].username != db'.users[j].username
    {
      if i == |db.users| {
        assert db.users[j] == db'.users[j];
      } else if j == |db.users| {
        assert db.users[i] == db'.users[i];
      }
    }
    assert ChatsOk(db') by {
      forall i | 0 <= i < |db'.chats| ensures ChatOk(db', db'.chats[i]) {
        assert ChatOk(db, db.chats[i]);
      }
    }
    assert MessagesOk(db') by {
      forall i | 0 <= i < |db'.messages| ensures MessageOk(db', i + 1, db'.messages[i]) {
        assert MessageOk(db, i + 1, db.messages[i]);
      }
    }
  }

  lemma AddChatValid(db: Db, c: Chat)
    requires Valid(db) && ChatOk(db, c)
    ensures Valid(db.(chats := db.chats + [c]))
  {
    var db' := db.(chats := db.chats + [c]);
    assert forall i :: 0 <= i < |db.chats| ==> db'.chats[i] == db.chats[i];
    assert MessagesOk(db') by {
      forall i | 0 <= i < |db'.messages| ensures MessageOk(db', i + 1, db'.messages[i]) {
        assert MessageOk(db, i + 1, db.messages[i]);
      }
    }
    assert StatusesOk(db') by {
      forall k | k in db'.statuses ensures StatusOk(db', k, db'.statuses[k]) {
        assert StatusOk(db, k, db.statuses[k]);
      }
    }
    assert ReadStatesOk(db') by {
      forall k | k in db'.readStates ensures IsMember(db', k.chat, k.user) {
        assert IsMember(db, k.chat, k.user);
      }
    }
  }

  lemma AddMessageValid(db: Db, m: Message)
    requires Valid(db) && MessageOk(db, |db.messages| + 1, m)
    ensures Valid(db.(messages := db.messages + [m]))
  {
    var db' := db.(messages := db.messages + [m]);
    assert forall i :: 0 <= i < |db.messages| ==> db'.messages[i] == db.messages[i];
    assert StatusesOk(db') by {
      forall k | k in db'.statuses ensures StatusOk(db', k, db'.statuses[k]) {
        assert StatusOk(db, k, db.statuses[k]);
      }
    }
  }

  /** Writing a message row back keeps the schema rules when the row keeps its
      chat, sender and forward columns and its edit flag matches its edit time. */
  lemma ReplaceMessageValid(db: Db, mid: MessageId, m: Message)
    requires Valid(db) && MessageExists(db, mid)
    requires m.chat == MessageOf(db, mid).chat && m.sender == MessageOf(db, mid).sender
    requires m.forwardedFrom == MessageOf(db, mid).forwardedFrom && m.forwardedBy == MessageOf(db, mid).forwardedBy
    requires m.isEdited <==> m.editedAt.Some?
    ensures Valid(db.(messages := db.messages[mid - 1 := m]))
  {
    var db' := db.(messages := db.messages[mid - 1 := m]);
    assert forall i :: 0 <= i < |db.messages| ==>
      db'.messages[i].chat == db.messages[i].chat && db'.messages[i].sender == db.messages[i].sender;
    assert MessagesOk(db') by {
      forall i | 0 <= i < |db'.messages| ensures MessageOk(db', i + 1, db'.messages[i]) {
        assert MessageOk(db, i + 1, db.messages[i]);
      }
    }
    assert StatusesOk(db') by {
      forall k | k in db'.statuses ensures StatusOk(db', k, db'.statuses[k]) {
        assert StatusOk(db, k, db.statuses[k]);
        StatusOkOverReplace(db, mid, m, k, db.statuses[k]);
      }
    }
  }

  /** A status row stays well formed when a message row is rewritten with the
      same chat and sender. */
  lemma StatusOkOverReplace(db: Db, mid: MessageId, m: Message, k: StatusKey, s: MessageStatus)
    requires MessageExists(db, mid) && m.chat == MessageOf(db, mid).chat && m.sender == MessageOf(db, mid).sender
    requires StatusOk(db, k, s)
    ensures StatusOk(db.(messages := db.messages[mid - 1 := m]), k, s)
  {
    var db' := db.(messages := db.messages[mid - 1 := m]);
    assert MessageOf(db', k.message).chat == MessageOf(db, k.message).chat;
    assert MessageOf(db', k.message).sender == MessageOf(db, k.message).sender;
  }

  /** An edit of one row keeps the database valid. */
  lemma EditRowValid(db: Db, mid: MessageId, text: string, now: Time)
    requires Valid(db) && MessageExists(db, mid)
    ensures Valid(db.(messages := db.messages[mid - 1 := Edited(MessageOf(db, mid), text, now)]))
  {
    ReplaceMessageValid(db, mid, Edited(MessageOf(db, mid), text, now));
  }

  /** So does a soft delete. */
  lemma DeleteRowValid(db: Db, mid: MessageId)
    requires Valid(db) && MessageExists(db, mid)
    ensures Valid(db.(messages := db.messages[mid - 1 := Tombstoned(MessageOf(db, mid))]))
  {
    ReplaceMessageValid(db, mid, Tombstoned(MessageOf(db, mid)));
  }

  lemma AddDeliveredValid(db: Db, mid: MessageId, now: Time)
    requires Valid(db) && MessageExists(db, mid)
    ensures ChatExists(db, MessageOf(db, mid).chat)
    ensures Valid(db.(statuses := db.statuses + DeliveredRows(mid, Recipients(db, mid), now)))
  {
    assert MessageOk(db, mid, db.messages[mid - 1]);
    var rows := DeliveredRows(mid, Recipients(db, mid), now);
    var db' := db.(statuses := db.statuses + rows);
    forall k | k in db'.statuses ensures StatusOk(db', k, db'.statuses[k]) {
      if k in rows {
        assert db'.statuses[k] == DeliveredStatus(now);
        DeliveredRowOk(db, mid, k.user, now);
        StatusOkOverStatuses(db, db'.statuses, k, DeliveredStatus(now));
      } else {
        assert db'.statuses[k] == db.statuses[k];
        StatusOkOverStatuses(db, db'.statuses, k, db.statuses[k]);
      }
    }
  }

  /** Whether a status row is well formed does not depend on the status table. */
  lemma StatusOkOverStatuses(db: Db, statuses: map<StatusKey, MessageStatus>, k: StatusKey, s: MessageStatus)
    requires StatusOk(db, k, s)
    ensures StatusOk(db.(statuses := statuses), k, s)
  {
  }

  /** Marking a well-formed row read keeps it well formed. */
  lemma MarkedReadOk(db: Db, k: StatusKey, s: MessageStatus, now: Time)
    requires StatusOk(db, k, s)
    ensures StatusOk(db, k, MarkedRead(s, now))
  {
  }

  /** A delivered row for a recipient of a well-formed message is well formed. */
  lemma DeliveredRowOk(db: Db, mid: MessageId, u: UserId, now: Time)
    requires MessageExists(db, mid) && MessageOk(db, mid, MessageOf(db, mid)) && u in Recipients(db, mid)
    ensures StatusOk(db, StatusKey(mid, u), DeliveredStatus(now))
  {
  }

  lemma MarkReadValid(db: Db, c: ChatId, u: UserId, upTo: int, now: Time)
    requires Valid(db)
    ensures Valid(db.(statuses := StatusesAfterMarkRead(db, c, u, upTo, now)))
  {
    var db' := db.(statuses := StatusesAfterMarkRead(db, c, u, upTo, now));
    forall k | k in db'.statuses ensures StatusOk(db', k, db'.statuses[k]) {
      assert StatusOk(db, k, db.statuses[k]);
      if ReadTarget(db, k, db.statuses[k], c, u, upTo) {
        assert db'.statuses[k] == MarkedRead(db.statuses[k], now);
        MarkedReadOk(db, k, db.statuses[k], now);
        StatusOkOverStatuses(db, db'.statuses, k, MarkedRead(db.statuses[k], now));
      } else {
        assert db'.statuses[k] == db.statuses[k];
        StatusOkOverStatuses(db, db'.statuses, k, db.statuses[k]);
      }
    }
  }

  lemma SetReadStateValid(db: Db, c: ChatId, u: UserId, w: nat)
    requires Valid(db) && IsMember(db, c, u)
    ensures Valid(db.(readStates := db.readStates[ReadKey(c, u) := w]))
  {
  }

  /** No read state of the new chat can exist before it does. */
  lemma NoReadStatesOfNextChat(db: Db)
    requires Valid(db)
    ensures forall k :: k in db.readStates ==> k.chat != |db.chats| + 1
  {
    forall k | k in db.readStates ensures k.chat != |db.chats| + 1 {
      assert IsMember(db, k.chat, k.user);
    }
  }

  lemma NewChatReadStatesValid(db: Db, members: set<UserId>)
    requires Valid(db) && |db.chats| >= 1 && members == db.chats[|db.chats| - 1].members
    ensures Valid(db.(readStates := db.readStates + ReadRows(|db.chats|, members)))
  {
    var c := |db.chats|;
    var db' := db.(readStates := db.readStates + ReadRows(c, members));
    assert ReadStatesOk(db') by {
      forall k | k in db'.readStates ensures IsMember(db', k.chat, k.user) {
        if k !in db.readStates {
          assert k.chat == c && k.user in members;
        }
      }
    }
  }

}
