/** `ChatListSerializer`: the chat row plus the two derived fields, the
    requester's unread count and a summary of the chat's last message. */
module ChatSerializers {
  import opened Common
  import opened ChatModels
  import opened MessageModels
  import opened Schema

  // ------------------------------------------------------------ unread count

  /** A message the user has not read yet: in chat `c`, above the watermark
      `w`, and sent by someone else. Deleted messages are not excluded. */
  predicate IsUnread(db: Db, c: ChatId, u: UserId, w: nat, id: int) {
    MessageExists(db, id) && id > w && MessageOf(db, id).chat == c && MessageOf(db, id).sender != u
  }

  /** The number of unread messages among ids 1..n. */
  function UnreadUpTo(db: Db, c: ChatId, u: UserId, w: nat, n: nat): (r: nat)
    requires n <= |db.messages|
    ensures r <= n
    decreases n
  {
    if n == 0 then 0 else UnreadUpTo(db, c, u, w, n - 1) + (if IsUnread(db, c, u, w, n) then 1 else 0)
  }

  /** `get_unread_count`: the count above the stored watermark, 0 when the
      user has no read state in the chat. */
  function UnreadCount(db: Db, c: ChatId, u: UserId): (r: nat)
    ensures r <= |db.messages|
    ensures ReadKey(c, u) !in db.readStates ==> r == UnreadUpTo(db, c, u, 0, |db.messages|)
  {
    UnreadUpTo(db, c, u, Watermark(db, c, u), |db.messages|)
  }

  /** The count is positive exactly when some message is unread. */
  lemma {:induction false} UnreadPositive(db: Db, c: ChatId, u: UserId, w: nat, n: nat)
    requires n <= |db.messages|
    ensures UnreadUpTo(db, c, u, w, n) > 0 <==> exists id :: 1 <= id <= n && IsUnread(db, c, u, w, id)
    decreases n
  {
    if n > 0 {
      UnreadPositive(db, c, u, w, n - 1);
      if UnreadUpTo(db, c, u, w, n - 1) > 0 {
        var id :| 1 <= id <= n - 1 && IsUnread(db, c, u, w, id);
        assert 1 <= id <= n;
      }
    }
  }

  /** Raising the watermark never raises the count. */
  lemma {:induction false} UnreadMonotone(db: Db, c: ChatId, u: UserId, w1: nat, w2: nat, n: nat)
    requires w1 <= w2 && n <= |db.messages|
    ensures UnreadUpTo(db, c, u, w2, n) <= UnreadUpTo(db, c, u, w1, n)
    decreases n
  {
    if n > 0 {
      UnreadMonotone(db, c, u, w1, w2, n - 1);
    }
  }

  /** A watermark at or above every message id leaves nothing unread. */
  lemma {:induction false} UnreadCaughtUp(db: Db, c: ChatId, u: UserId, w: nat, n: nat)
    requires n <= |db.messages| && n <= w
    ensures UnreadUpTo(db, c, u, w, n) == 0
    decreases n
  {
    if n > 0 {
      UnreadCaughtUp(db, c, u, w, n - 1);
    }
  }

  /** The count depends only on each message's chat and sender. */
  lemma {:induction false} UnreadSameIdentity(db: Db, db': Db, c: ChatId, u: UserId, w: nat, n: nat)
    requires n <= |db.messages| && n <= |db'.messages|
    requires forall i :: 0 <= i < n ==> db.messages[i].chat == db'.messages[i].chat && db.messages[i].sender == db'.messages[i].sender
    ensures UnreadUpTo(db, c, u, w, n) == UnreadUpTo(db', c, u, w, n)
    decreases n
  {
    if n > 0 {
      UnreadSameIdentity(db, db', c, u, w, n - 1);
    }
  }

  /** The user's own new message leaves their count unchanged; anyone else's
      new message in the chat adds one (its id is above any watermark that
      is not ahead of the table). */
  lemma NewMessageAndUnread(db: Db, c: ChatId, u: UserId, m: Message)
    ensures m.sender == u ==> UnreadCount(db.(messages := db.messages + [m]), c, u) == UnreadCount(db, c, u)
    ensures m.chat == c && m.sender != u && Watermark(db, c, u) <= |db.messages| ==>
      UnreadCount(db.(messages := db.messages + [m]), c, u) == UnreadCount(db, c, u) + 1
  {
    var db' := db.(messages := db.messages + [m]);
    UnreadSameIdentity(db, db', c, u, Watermark(db, c, u), |db.messages|);
  }

  /** The count stays put when a message is edited or soft-deleted: a
      tombstone still counts as unread. */
  lemma ReplaceKeepsUnread(db: Db, mid: MessageId, m: Message, c: ChatId, u: UserId)
    requires MessageExists(db, mid)
    requires m.chat == MessageOf(db, mid).chat && m.sender == MessageOf(db, mid).sender
    ensures UnreadCount(db.(messages := db.messages[mid - 1 := m]), c, u) == UnreadCount(db, c, u)
  {
    UnreadSameIdentity(db, db.(messages := db.messages[mid - 1 := m]), c, u, Watermark(db, c, u), |db.messages|);
  }

  /** In the read-state terms of the whole chat: the count is 0 once the
      watermark reaches the last message id, and never grows when the
      watermark moves up. */
  lemma UnreadCountWatermark(db: Db, c: ChatId, u: UserId, w: nat)
    ensures Watermark(db, c, u) >= |db.messages| ==> UnreadCount(db, c, u) == 0
    ensures Watermark(db, c, u) <= w ==>
      UnreadCount(db.(readStates := db.readStates[ReadKey(c, u) := w]), c, u) <= UnreadCount(db, c, u)
  {
    if Watermark(db, c, u) >= |db.messages| {
      UnreadCaughtUp(db, c, u, Watermark(db, c, u), |db.messages|);
    }
    var db' := db.(readStates := db.readStates[ReadKey(c, u) := w]);
    if Watermark(db, c, u) <= w {
      UnreadSameIdentity(db, db', c, u, w, |db.messages|);
      UnreadMonotone(db, c, u, Watermark(db, c, u), w, |db.messages|);
    }
  }

  // ------------------------------------------------------------ last message

  /** The largest id among 1..n of a message in chat `c`. */
  function LastUpTo(db: Db, c: ChatId, n: nat): (r: Option<MessageId>)
    requires n <= |db.messages|
    ensures r.None? <==> forall id :: 1 <= id <= n ==> MessageOf(db, id).chat != c
    ensures r.Some? ==> 1 <= r.value <= n && MessageOf(db, r.value).chat == c
    ensures r.Some? ==> forall id :: r.value < id <= n ==> MessageOf(db, id).chat != c
    decreases n
  {
    if n == 0 then None
    else if MessageOf(db, n).chat == c then Some(n)
    else LastUpTo(db, c, n - 1)
  }

  /** `chat.messages.order_by('-id').first()`. */
  function LastMessage(db: Db, c: ChatId): (r: Option<MessageId>)
    ensures r.None? <==> forall id :: MessageExists(db, id) ==> MessageOf(db, id).chat != c
    ensures r.Some? ==> MessageExists(db, r.value) && MessageOf(db, r.value).chat == c
    ensures r.Some? ==> forall id :: MessageExists(db, id) && MessageOf(db, id).chat == c ==> id <= r.value
  {
    LastUpTo(db, c, |db.messages|)
  }

  /** A new message becomes its chat's last message and leaves every other
      chat's last message alone. */
  lemma NewMessageIsLast(db: Db, m: Message, c: ChatId)
    ensures var db' := db.(messages := db.messages + [m]);
      LastMessage(db', c) == if m.chat == c then Some(|db'.messages|) else LastMessage(db, c)
  {
    LastUpToPrefix(db, db.(messages := db.messages + [m]), c, |db.messages|);
  }

  /** The scan over ids 1..n reads only the first n rows. */
  lemma {:induction false} LastUpToPrefix(db: Db, db': Db, c: ChatId, n: nat)
    requires n <= |db.messages| && n <= |db'.messages|
    requires forall i :: 0 <= i < n ==> db.messages[i].chat == db'.messages[i].chat
    ensures LastUpTo(db, c, n) == LastUpTo(db', c, n)
    decreases n
  {
    if n > 0 {
      LastUpToPrefix(db, db', c, n - 1);
    }
  }

  /** The `last_message` dictionary. */
  datatype LastMessageSummary = LastMessageSummary(id: MessageId, text: string, sender: string, createdAt: Time)

  /** `get_last_message`: nothing for a chat without messages, otherwise the
      newest row's id, stored text (the placeholder once deleted), sender's
      username and creation time. */
  function LastMessageOf(db: Db, c: ChatId): (r: Option<LastMessageSummary>)
    requires Valid(db)
    ensures r.None? <==> LastMessage(db, c).None?
    ensures r.Some? ==> r.value.id == LastMessage(db, c).value
    ensures r.Some? ==> var m := MessageOf(db, r.value.id);
      && r.value.text == m.text && r.value.createdAt == m.createdAt
      && UserExists(db, m.sender) && r.value.sender == db.users[m.sender - 1].username
  {
    match LastMessage(db, c)
    case None => None
    case Some(id) =>
      var m := MessageOf(db, id);
      assert MessageOk(db, id, db.messages[id - 1]);
      Some(LastMessageSummary(id, m.text, db.users[m.sender - 1].username, m.createdAt))
  }

  /** Soft-deleting a chat's last message keeps it the last message, now
      summarised with the placeholder text. */
  lemma DeletedLastMessageShowsPlaceholder(db: Db, c: ChatId)
    requires Valid(db) && LastMessage(db, c).Some?
    ensures var id := LastMessage(db, c).value;
      var db' := db.(messages := db.messages[id - 1 := Tombstoned(MessageOf(db, id))]);
      && Valid(db') && LastMessage(db', c) == Some(id)
      && LastMessageOf(db', c).Some? && LastMessageOf(db', c).value.text == DELETED_TEXT
  {
    var id := LastMessage(db, c).value;
    var m := MessageOf(db, id);
    var db' := db.(messages := db.messages[id - 1 := Tombstoned(m)]);
    ReplaceMessageValid(db, id, Tombstoned(m));
    LastUpToPrefix(db, db', c, |db.messages|);
  }

  // ------------------------------------------------------------ the list row

  /** One element of the chat list as the serializer renders it. */
  datatype ChatListRow = ChatListRow(
    id: ChatId, kind: string, name: Option<string>, members: set<UserId>, createdAt: Time,
    unreadCount: nat, lastMessage: Option<LastMessageSummary>)

  function ListRow(db: Db, c: ChatId, u: UserId): (r: ChatListRow)
    requires Valid(db) && ChatExists(db, c)
    ensures r.id == c && r.members == ChatOf(db, c).members
    ensures r.unreadCount == UnreadCount(db, c, u) && r.lastMessage == LastMessageOf(db, c)
    ensures r.kind == PRIVATE <==> IsPrivate(ChatOf(db, c))
    ensures r.kind == KindCode(ChatOf(db, c).kind) && ParseKind(r.kind) == Some(ChatOf(db, c).kind)
    ensures r.name == ChatOf(db, c).name && r.createdAt == ChatOf(db, c).createdAt
  {
    var ch := ChatOf(db, c);
    ChatListRow(c, KindCode(ch.kind), ch.name, ch.members, ch.createdAt, UnreadCount(db, c, u), LastMessageOf(db, c))
  }
}
