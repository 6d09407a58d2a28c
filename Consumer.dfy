/** `ChatConsumer`, the per-connection WebSocket handler: connect and
    disconnect with presence fan-out, the inbound event dispatch, the
    database helpers it calls, and the outbound handlers that turn group
    events into frames for its own socket.

    The database effect and the broadcasts of every inbound event are given
    by the pure function `ReceiveStep`; the class's methods are proved to
    perform exactly that step, and the lemmas below state what the step
    promises. */
module Consumer {
  import opened Common
  import Text
  import opened UserModels
  import opened ChatModels
  import opened MessageModels
  import opened Schema
  import opened Store
  import opened Channels

  /** `f"chat_{chat_id}"`, the group a chat's connections join. */
  function GroupName(chatId: ChatId): string {
    "chat_" + Text.DecimalString(chatId)
  }

  /** Each chat has its own group: two chats never share a group name. */
  lemma GroupNameInjective(a: ChatId, b: ChatId)
    requires GroupName(a) == GroupName(b)
    ensures a == b
  {
    var p := "chat_";
    assert GroupName(a)[|p|..] == Text.DecimalString(a);
    assert GroupName(b)[|p|..] == Text.DecimalString(b);
    Text.DecimalStringInjective(a, b);
  }

  // ------------------------------------------------------------ wire formats

  /** An inbound frame, after JSON decoding, by its `type`. A field the client
      left out is `None`; a `type` the dispatch does not know is `InOther`. */
  datatype Inbound =
    | InMessage(text: Option<string>)
    | InTyping(isTyping: Option<bool>)
    | InRead(lastReadMessageId: Option<int>)
    | InForward(messageId: Option<int>, targetChatId: Option<int>)
    | InEdit(editId: Option<int>, newText: Option<string>)
    | InDelete(deleteId: Option<int>)
    | InOther(kind: string)

  /** An outbound frame, as the outbound handlers serialise it. */
  datatype OutFrame =
    | OutMessage(messageId: MessageId, text: string, sender: string, senderId: UserId,
                 forwarded: bool, forwardedFrom: Option<string>, createdAt: Time)
    | OutTyping(userId: UserId, username: string, isTyping: bool)
    | OutRead(userId: UserId, lastReadMessageId: int)
    | OutEdit(editedId: Option<int>, newText: Option<string>)
    | OutDelete(deletedId: Option<int>)
    | OutUserStatus(userId: UserId, isOnline: bool)

  /** The frame's `"type"` key. */
  function WireType(f: OutFrame): string {
    match f
    case OutMessage(_, _, _, _, _, _, _) => "message"
    case OutTyping(_, _, _) => "typing"
    case OutRead(_, _) => "read"
    case OutEdit(_, _) => "message_edit"
    case OutDelete(_) => "message_delete"
    case OutUserStatus(_, _) => "user_status"
  }

  /** The outbound handlers (`chat_message`, `typing_event`, `read_update`,
      `message_edit`, `message_delete`, `user_status`) of a connection whose
      user is `me`: each copies its event into a frame, filling in the keys a
      plain message event leaves out; only `typing_event` filters, dropping the
      typing events of `me`'s own user. */
  function Outbound(ev: GroupEvent, me: UserId): (f: Option<OutFrame>)
    ensures f.None? <==> (ev.TypingEvent? && ev.userId == me)
    ensures ev.ChatMessage? ==> f == Some(OutMessage(ev.messageId, ev.text, ev.sender, ev.senderId,
                                                       ev.forwarded.GetOr(false), ev.forwardedFrom, ev.createdAt))
    ensures ev.TypingEvent? && ev.userId != me ==> f == Some(OutTyping(ev.userId, ev.username, ev.isTyping))
    ensures ev.ReadUpdate? ==> f == Some(OutRead(ev.userId, ev.lastReadMessageId))
    ensures ev.MessageEdit? ==> f == Some(OutEdit(ev.editedId, ev.newText))
    ensures ev.MessageDelete? ==> f == Some(OutDelete(ev.deletedId))
    ensures ev.UserStatusEvent? ==> f == Some(OutUserStatus(ev.userId, ev.isOnline))
  {
    match ev
    case ChatMessage(id, text, sender, senderId, forwarded, forwardedFrom, createdAt) =>
      Some(OutMessage(id, text, sender, senderId, forwarded.GetOr(false), forwardedFrom, createdAt))
    case TypingEvent(userId, username, isTyping) =>
      if userId != me then Some(OutTyping(userId, username, isTyping)) else None
    case ReadUpdate(userId, last) => Some(OutRead(userId, last))
    case MessageEdit(id, text) => Some(OutEdit(id, text))
    case MessageDelete(id) => Some(OutDelete(id))
    case UserStatusEvent(userId, online) => Some(OutUserStatus(userId, online))
  }

  /** A frame keeps its event's kind: the `"type"` the client sees names the handler that sent it. */
  lemma OutboundWireType(ev: GroupEvent, me: UserId)
    requires Outbound(ev, me).Some?
    ensures WireType(Outbound(ev, me).value) ==
      match ev
      case ChatMessage(_, _, _, _, _, _, _) => "message"
      case TypingEvent(_, _, _) => "typing"
      case ReadUpdate(_, _) => "read"
      case MessageEdit(_, _) => "message_edit"
      case MessageDelete(_) => "message_delete"
      case UserStatusEvent(_, _) => "user_status"
  {
  }

  /** Of all the connections one `group_send` reaches, the ones that write a
      typing event to their socket are exactly those of other users. */
  lemma TypingFanout(s: Send, userOf: map<ChannelName, UserId>)
    requires s.event.TypingEvent?
    ensures forall c :: c in s.recipients && c in userOf ==>
      (Outbound(s.event, userOf[c]).Some? <==> userOf[c] != s.event.userId)
  {
  }

  // ------------------------------------------------------------ the database steps

  function UsernameOf(db: Db, u: UserId): string
    requires UserExists(db, u)
  {
    db.users[u - 1].username
  }

  /** `save_message`: the insert, then one delivered status per other member. */
  function AfterSave(db: Db, chat: ChatId, sender: UserId, text: string, now: Time): Db
    requires ChatExists(db, chat) && UserExists(db, sender)
  {
    var db1 := db.(messages := db.messages + [NewMessage(chat, sender, text, None, None, now)]);
    var mid := |db1.messages|;
    db1.(statuses := db1.statuses + DeliveredRows(mid, Recipients(db1, mid), now))
  }

  /** A saved message gets exactly one delivered, unread status for every
      member of its chat other than the sender, and none for the sender; the
      existing rows are kept, and the schema rules still hold. */
  lemma SaveMessageStatuses(db: Db, chat: ChatId, sender: UserId, text: string, now: Time)
    requires Valid(db) && ChatExists(db, chat) && UserExists(db, sender)
    ensures var db' := AfterSave(db, chat, sender, text, now);
      var mid := |db.messages| + 1;
      && Valid(db')
      && db'.messages == db.messages + [NewMessage(chat, sender, text, None, None, now)]
      && (forall u :: StatusKey(mid, u) in db'.statuses <==> u in ChatOf(db, chat).members && u != sender)
      && (forall u :: StatusKey(mid, u) in db'.statuses ==> db'.statuses[StatusKey(mid, u)] == DeliveredStatus(now))
      && (forall k :: k in db.statuses ==> k in db'.statuses && db'.statuses[k] == db.statuses[k])
      && (forall k :: k in db'.statuses && k.message != mid ==> k in db.statuses)
      && db'.chats == db.chats && db'.users == db.users && db'.readStates == db.readStates
  {
    var m := NewMessage(chat, sender, text, None, None, now);
    AddMessageValid(db, m);
    var db1 := db.(messages := db.messages + [m]);
    var mid := |db1.messages|;
    assert MessageOf(db1, mid) == m;
    assert Recipients(db1, mid) == ChatOf(db, chat).members - {sender};
    var rows := DeliveredRows(mid, Recipients(db1, mid), now);
    assert AfterSave(db, chat, sender, text, now) == db1.(statuses := db.statuses + rows);
    AddDeliveredValid(db1, mid, now);
    forall k | k in db.statuses ensures k.message != mid {
      assert StatusOk(db, k, db.statuses[k]);
    }
  }

  /** The watermark rule: a positive id higher than the current watermark
      replaces it; anything else leaves it. */
  function Advanced(w: nat, id: int): (r: nat)
    ensures r >= w && r >= id
    ensures r == w || r == id
  {
    if id > w then id else w
  }

  /** `update_read_state`: ids ≤ 0 are ignored; otherwise the read state is
      fetched or created, and when the id is above the watermark the watermark
      moves up and the bulk update marks this user's statuses in this chat read. */
  function AfterRead(db: Db, c: ChatId, u: UserId, lastId: int, now: Time): (r: Db)
    requires IsMember(db, c, u)
    ensures r.users == db.users && r.chats == db.chats && r.messages == db.messages && r.pins == db.pins
  {
    if lastId <= 0 then db
    else
      var w := Watermark(db, c, u);
      var db1 := db.(readStates := db.readStates[ReadKey(c, u) := w]);
      if lastId > w then
        var db2 := db1.(readStates := db1.readStates[ReadKey(c, u) := lastId]);
        db2.(statuses := StatusesAfterMarkRead(db2, c, u, lastId, now))
      else db1
  }

  /** The read state moves by `Advanced` and no other read state changes; ids
      ≤ 0 change nothing at all. */
  lemma AfterReadWatermark(db: Db, c: ChatId, u: UserId, lastId: int, now: Time)
    requires IsMember(db, c, u)
    ensures Watermark(AfterRead(db, c, u, lastId, now), c, u) == Advanced(Watermark(db, c, u), lastId)
    ensures forall c', u' :: (c' != c || u' != u) ==>
      Watermark(AfterRead(db, c, u, lastId, now), c', u') == Watermark(db, c', u')
    ensures lastId <= 0 ==> AfterRead(db, c, u, lastId, now) == db
  {
  }

  /** Reading marks exactly the right statuses: nothing goes from read back to
      unread, other users' statuses are untouched, and when the watermark moved
      every status of this user for a message of this chat up to the new
      watermark is read. When it did not move, no status changes. */
  lemma AfterReadStatuses(db: Db, c: ChatId, u: UserId, lastId: int, now: Time)
    requires IsMember(db, c, u)
    ensures var r := AfterRead(db, c, u, lastId, now);
      && r.statuses.Keys == db.statuses.Keys
      && (forall k :: k in db.statuses && db.statuses[k].read ==> r.statuses[k] == db.statuses[k])
      && (forall k :: k in db.statuses && k.user != u ==> r.statuses[k] == db.statuses[k])
      && (lastId > Watermark(db, c, u) ==>
            forall k :: (k in r.statuses && k.user == u && k.message <= lastId && MessageExists(db, k.message)
                         && MessageOf(db, k.message).chat == c) ==> r.statuses[k].read)
      && (lastId <= Watermark(db, c, u) ==> r.statuses == db.statuses)
  {
    if lastId > 0 && lastId > Watermark(db, c, u) {
      var w := Watermark(db, c, u);
      var db1 := db.(readStates := db.readStates[ReadKey(c, u) := w]);
      var db2 := db1.(readStates := db1.readStates[ReadKey(c, u) := lastId]);
      MarkReadMonotone(db2, c, u, lastId, now);
    }
  }

  lemma AfterReadValid(db: Db, c: ChatId, u: UserId, lastId: int, now: Time)
    requires Valid(db) && IsMember(db, c, u)
    ensures Valid(AfterRead(db, c, u, lastId, now))
  {
    if lastId > 0 {
      var w := Watermark(db, c, u);
      SetReadStateValid(db, c, u, w);
      var db1 := db.(readStates := db.readStates[ReadKey(c, u) := w]);
      if lastId > w {
        SetReadStateValid(db1, c, u, lastId);
        var db2 := db1.(readStates := db1.readStates[ReadKey(c, u) := lastId]);
        MarkReadValid(db2, c, u, lastId, now);
      }
    }
  }

  /** The watermark after a run of `read` events, starting from `w`. */
  function Replay(w: nat, ids: seq<int>): nat
    decreases |ids|
  {
    if ids == [] then w else Replay(Advanced(w, ids[0]), ids[1..])
  }

  /** After any run of `read` events the watermark is the largest of the
      starting watermark and the submitted ids: at least each of them, and
      equal to one of them. From a fresh read state (0) that is the largest
      positive id submitted, or 0. */
  lemma {:induction false} ReplayIsMaximum(w: nat, ids: seq<int>)
    ensures Replay(w, ids) >= w
    ensures forall i :: 0 <= i < |ids| ==> Replay(w, ids) >= ids[i]
    ensures Replay(w, ids) == w || Replay(w, ids) in ids
    decreases |ids|
  {
    if ids != [] {
      ReplayIsMaximum(Advanced(w, ids[0]), ids[1..]);
      forall i | 0 <= i < |ids| ensures Replay(w, ids) >= ids[i] {
        if i > 0 { assert ids[i] == ids[1..][i - 1]; }
      }
      if Replay(w, ids) != w && Replay(w, ids) != ids[0] {
        assert Replay(w, ids) in ids[1..];
      }
    }
  }

  /** The order in which `read` events arrive does not matter. */
  lemma ReplayOrderIndependent(w: nat, a: seq<int>, b: seq<int>)
    requires multiset(a) == multiset(b)
    ensures Replay(w, a) == Replay(w, b)
  {
    ReplayIsMaximum(w, a);
    ReplayIsMaximum(w, b);
    var x, y := Replay(w, a), Replay(w, b);
    if x != w {
      assert x in multiset(a);
      var i :| 0 <= i < |b| && b[i] == x;
      assert y >= x;
    }
    if y != w {
      assert y in multiset(b);
      var j :| 0 <= j < |a| && a[j] == y;
      assert x >= y;
    }
  }

  /** The database after a run of `read` events of `u` in chat `c`. */
  function AfterReads(db: Db, c: ChatId, u: UserId, ids: seq<int>, now: Time): (r: Db)
    requires IsMember(db, c, u)
    ensures r.chats == db.chats && r.users == db.users
    decreases |ids|
  {
    if ids == [] then db else AfterReads(AfterRead(db, c, u, ids[0], now), c, u, ids[1..], now)
  }

  /** The stored watermark follows `Replay`: after any sequence of read events
      it is the maximum of the old watermark and the submitted ids. */
  lemma {:induction false} AfterReadsWatermark(db: Db, c: ChatId, u: UserId, ids: seq<int>, now: Time)
    requires IsMember(db, c, u)
    ensures Watermark(AfterReads(db, c, u, ids, now), c, u) == Replay(Watermark(db, c, u), ids)
    decreases |ids|
  {
    if ids != [] {
      AfterReadWatermark(db, c, u, ids[0], now);
      AfterReadsWatermark(AfterRead(db, c, u, ids[0], now), c, u, ids[1..], now);
    }
  }

  /** The message the client named exists and was sent by `u` (the filter of
      `edit_message` and `delete_message`). */
  predicate SenderMatches(db: Db, id: Option<int>, u: UserId) {
    id.Some? && MessageExists(db, id.value) && MessageOf(db, id.value).sender == u
  }

  /** `edit_message` with a text: rewrites the caller's own message, nothing else. */
  function AfterEdit(db: Db, id: Option<int>, u: UserId, text: string, now: Time): Db {
    if SenderMatches(db, id, u)
    then db.(messages := db.messages[id.value - 1 := Edited(MessageOf(db, id.value), text, now)])
    else db
  }

  /** `delete_message`: soft-deletes the caller's own message, nothing else. */
  function AfterDelete(db: Db, id: Option<int>, u: UserId): Db {
    if SenderMatches(db, id, u)
    then db.(messages := db.messages[id.value - 1 := Tombstoned(MessageOf(db, id.value))])
    else db
  }

  /** Edits and deletes reach only the caller's own messages: every message of
      another sender, and every message other than the named one, is unchanged,
      and no other table changes. */
  lemma EditDeleteOnlyOwn(db: Db, id: Option<int>, u: UserId, text: string, now: Time)
    ensures var e := AfterEdit(db, id, u, text, now);
      && e == db.(messages := e.messages) && |e.messages| == |db.messages|
      && (forall i :: 0 <= i < |db.messages| && (db.messages[i].sender != u || id != Some(i + 1)) ==>
            e.messages[i] == db.messages[i])
      && (SenderMatches(db, id, u) ==> MessageOf(e, id.value) == Edited(MessageOf(db, id.value), text, now))
    ensures var d := AfterDelete(db, id, u);
      && d == db.(messages := d.messages) && |d.messages| == |db.messages|
      && (forall i :: 0 <= i < |db.messages| && (db.messages[i].sender != u || id != Some(i + 1)) ==>
            d.messages[i] == db.messages[i])
      && (SenderMatches(db, id, u) ==>
            MessageOf(d, id.value).isDeleted && MessageOf(d, id.value).text == DELETED_TEXT)
  {
  }

  /** `forward_message` when both the source and the target chat exist: a new
      message in the target chat with the original's text, pointing back at the
      original and at the forwarder. No status rows are created. */
  function AfterForward(db: Db, src: MessageId, target: ChatId, u: UserId, now: Time): Db
    requires MessageExists(db, src)
  {
    db.(messages := db.messages + [NewMessage(target, u, MessageOf(db, src).text, Some(src), Some(u), now)])
  }

  // ------------------------------------------------------------ one inbound event

  /** What a handler call ends in: it returned, or it raised (the database
      rejected the write); a raising handler broadcasts nothing. */
  datatype Outcome = Handled | Raised

  /** The database after an inbound event, the `group_send`s it makes, and how it ended. */
  datatype Step = Step(db: Db, sends: seq<Send>, outcome: Outcome)

  /** The `receive` dispatch of a joined connection of user `u` in chat `c`. */
  function ReceiveStep(db: Db, groups: map<string, set<ChannelName>>, c: ChatId, u: UserId,
                       ev: Inbound, now: Time): Step
    requires Valid(db) && IsMember(db, c, u) && UserExists(db, u)
  {
    var room := GroupName(c);
    var toRoom := (e: GroupEvent) => [Send(room, SubscribersIn(groups, room), e)];
    var name := UsernameOf(db, u);
    match ev
    case InMessage(text) =>
      var t := text.GetOr("");
      Step(AfterSave(db, c, u, t, now),
           toRoom(ChatMessage(|db.messages| + 1, t, name, u, None, None, now)), Handled)
    case InTyping(flag) =>
      Step(db, toRoom(TypingEvent(u, name, flag.GetOr(true))), Handled)
    case InRead(last) =>
      var x := last.GetOr(0);
      Step(AfterRead(db, c, u, x, now), toRoom(ReadUpdate(u, x)), Handled)
    case InForward(src, target) =>
      if !(src.Some? && MessageExists(db, src.value)) then Step(db, [], Handled)
      else if !(target.Some? && ChatExists(db, target.value)) then Step(db, [], Raised)
      else
        var original := MessageOf(db, src.value);
        assert MessageOk(db, src.value, db.messages[src.value - 1]);
        var g := GroupName(target.value);
        Step(AfterForward(db, src.value, target.value, u, now),
             [Send(g, SubscribersIn(groups, g),
                   ChatMessage(|db.messages| + 1, original.text, name, u, Some(true),
                               Some(UsernameOf(db, original.sender)), now))],
             Handled)
    case InEdit(id, text) =>
      if SenderMatches(db, id, u) && text.None? then Step(db, [], Raised)
      else Step(if text.Some? then AfterEdit(db, id, u, text.value, now) else db,
                toRoom(MessageEdit(id, text)), Handled)
    case InDelete(id) =>
      Step(AfterDelete(db, id, u), toRoom(MessageDelete(id)), Handled)
    case InOther(_) =>
      Step(db, [], Handled)
  }

  lemma ForwardValid(db: Db, src: MessageId, target: ChatId, u: UserId, now: Time)
    requires Valid(db) && MessageExists(db, src) && ChatExists(db, target) && UserExists(db, u)
    ensures Valid(AfterForward(db, src, target, u, now))
  {
    AddMessageValid(db, NewMessage(target, u, MessageOf(db, src).text, Some(src), Some(u), now));
  }

  lemma EditValid(db: Db, id: Option<int>, u: UserId, text: string, now: Time)
    requires Valid(db)
    ensures Valid(AfterEdit(db, id, u, text, now))
  {
    if SenderMatches(db, id, u) {
      var mid: MessageId := id.value;
      EditRowValid(db, mid, text, now);
      assert AfterEdit(db, id, u, text, now) == db.(messages := db.messages[mid - 1 := Edited(MessageOf(db, mid), text, now)]);
    } else {
      assert AfterEdit(db, id, u, text, now) == db;
    }
  }

  lemma DeleteValid(db: Db, id: Option<int>, u: UserId)
    requires Valid(db)
    ensures Valid(AfterDelete(db, id, u))
  {
    if SenderMatches(db, id, u) {
      var mid: MessageId := id.value;
      DeleteRowValid(db, mid);
      assert AfterDelete(db, id, u) == db.(messages := db.messages[mid - 1 := Tombstoned(MessageOf(db, mid))]);
    } else {
      assert AfterDelete(db, id, u) == db;
    }
  }

  /** Every inbound event keeps the schema's integrity rules. */
  lemma ReceiveStepValid(db: Db, groups: map<string, set<ChannelName>>, c: ChatId, u: UserId, ev: Inbound, now: Time)
    requires Valid(db) && IsMember(db, c, u) && UserExists(db, u)
    ensures Valid(ReceiveStep(db, groups, c, u, ev, now).db)
  {
    match ev
    case InMessage(text) =>
      SaveMessageStatuses(db, c, u, text.GetOr(""), now);
    case InRead(last) =>
      AfterReadValid(db, c, u, last.GetOr(0), now);
    case InForward(src, target) =>
      if src.Some? && MessageExists(db, src.value) && target.Some? && ChatExists(db, target.value) {
        ForwardValid(db, src.value, target.value, u, now);
      }
    case InEdit(id, text) =>
      if text.Some? {
        EditValid(db, id, u, text.value, now);
      }
    case InDelete(id) =>
      DeleteValid(db, id, u);
    case InTyping(_) =>
    case InOther(_) =>
  }

  /** A new message is broadcast once, to the connection's own chat group,
      carrying the new id, the text (empty when the client sent none) and the
      sender, with no forwarding keys. */
  lemma MessageBroadcast(db: Db, groups: map<string, set<ChannelName>>, c: ChatId, u: UserId, text: Option<string>, now: Time)
    requires Valid(db) && IsMember(db, c, u) && UserExists(db, u)
    ensures var s := ReceiveStep(db, groups, c, u, InMessage(text), now);
      && s.outcome == Handled && |s.sends| == 1 && s.sends[0].group == GroupName(c)
      && s.sends[0].event == ChatMessage(|db.messages| + 1, text.GetOr(""), UsernameOf(db, u), u, None, None, now)
      && Outbound(s.sends[0].event, u).value.forwarded == false
      && Outbound(s.sends[0].event, u).value.forwardedFrom.None?
  {
  }

  /** Typing is not persisted: the database is unchanged and the event goes to
      the connection's own group, flagged true unless the client said otherwise. */
  lemma TypingPersistsNothing(db: Db, groups: map<string, set<ChannelName>>, c: ChatId, u: UserId, flag: Option<bool>, now: Time)
    requires Valid(db) && IsMember(db, c, u) && UserExists(db, u)
    ensures var s := ReceiveStep(db, groups, c, u, InTyping(flag), now);
      && s.db == db && |s.sends| == 1 && s.sends[0].group == GroupName(c)
      && s.sends[0].event == TypingEvent(u, UsernameOf(db, u), flag != Some(false))
  {
  }

  /** The `read` broadcast carries the id the client sent, whether or not the
      watermark moved, even when it is 0 or negative. */
  lemma ReadBroadcastsClientValue(db: Db, groups: map<string, set<ChannelName>>, c: ChatId, u: UserId, x: int, now: Time)
    requires Valid(db) && IsMember(db, c, u) && UserExists(db, u)
    requires x <= Watermark(db, c, u)
    ensures var s := ReceiveStep(db, groups, c, u, InRead(Some(x)), now);
      && s.sends == [Send(GroupName(c), SubscribersIn(groups, GroupName(c)), ReadUpdate(u, x))]
      && Watermark(s.db, c, u) == Watermark(db, c, u)
      && s.db.statuses == db.statuses
  {
    AfterReadWatermark(db, c, u, x, now);
    AfterReadStatuses(db, c, u, x, now);
  }

  /** Edit and delete are broadcast even when the caller does not own the
      message, and then they change nothing. */
  lemma ForeignEditDeleteStillBroadcast(db: Db, groups: map<string, set<ChannelName>>, c: ChatId, u: UserId,
                                        id: Option<int>, text: Option<string>, now: Time)
    requires Valid(db) && IsMember(db, c, u) && UserExists(db, u)
    requires !SenderMatches(db, id, u)
    ensures var s := ReceiveStep(db, groups, c, u, InEdit(id, text), now);
      s.db == db && s.outcome == Handled
      && s.sends == [Send(GroupName(c), SubscribersIn(groups, GroupName(c)), MessageEdit(id, text))]
    ensures var s := ReceiveStep(db, groups, c, u, InDelete(id), now);
      s.db == db && s.outcome == Handled
      && s.sends == [Send(GroupName(c), SubscribersIn(groups, GroupName(c)), MessageDelete(id))]
  {
  }

  /** An edit without a text on a message the caller owns writes NULL into a
      NOT NULL column: the database rejects it, nothing changes and nothing is
      broadcast. */
  lemma EditWithoutTextRaises(db: Db, groups: map<string, set<ChannelName>>, c: ChatId, u: UserId, id: Option<int>, now: Time)
    requires Valid(db) && IsMember(db, c, u) && UserExists(db, u)
    requires SenderMatches(db, id, u)
    ensures ReceiveStep(db, groups, c, u, InEdit(id, None), now) == Step(db, [], Raised)
  {
  }

  /** Forwarding: an unknown source is silently dropped; to a chat that does not
      exist it raises; otherwise it adds one message to the target chat (the
      caller need not be a member of it) with the original text and both forward
      columns set, creates no status rows, and broadcasts to the target chat's
      group only. */
  lemma ForwardEffects(db: Db, groups: map<string, set<ChannelName>>, c: ChatId, u: UserId,
                       src: Option<int>, target: Option<int>, now: Time)
    requires Valid(db) && IsMember(db, c, u) && UserExists(db, u)
    ensures var s := ReceiveStep(db, groups, c, u, InForward(src, target), now);
      && (!(src.Some? && MessageExists(db, src.value)) ==> s == Step(db, [], Handled))
      && ((src.Some? && MessageExists(db, src.value) && !(target.Some? && ChatExists(db, target.value)))
            ==> s == Step(db, [], Raised))
      && (src.Some? && MessageExists(db, src.value) && target.Some? && ChatExists(db, target.value) ==>
            && s.outcome == Handled
            && s.db.statuses == db.statuses
            && s.db.messages == db.messages + [NewMessage(target.value, u, MessageOf(db, src.value).text,
                                                          Some(src.value), Some(u), now)]
            && |s.sends| == 1 && s.sends[0].group == GroupName(target.value)
            && s.sends[0].event.ChatMessage? && s.sends[0].event.forwarded == Some(true))
  {
  }

  /** An event kind the dispatch does not know is ignored. */
  lemma UnknownKindIgnored(db: Db, groups: map<string, set<ChannelName>>, c: ChatId, u: UserId, kind: string, now: Time)
    requires Valid(db) && IsMember(db, c, u) && UserExists(db, u)
    ensures ReceiveStep(db, groups, c, u, InOther(kind), now) == Step(db, [], Handled)
  {
  }

  // ------------------------------------------------------------ presence fan-out

  /** `notify_status`: one `user_status` event per chat id, in order. */
  function StatusSends(groups: map<string, set<ChannelName>>, ids: seq<ChatId>, u: UserId, online: bool): (s: seq<Send>)
    ensures |s| == |ids|
    ensures forall i :: 0 <= i < |ids| ==>
      s[i] == Send(GroupName(ids[i]), SubscribersIn(groups, GroupName(ids[i])), UserStatusEvent(u, online))
    decreases |ids|
  {
    if ids == [] then []
    else StatusSends(groups, ids[..|ids| - 1], u, online)
         + [Send(GroupName(ids[|ids| - 1]), SubscribersIn(groups, GroupName(ids[|ids| - 1])), UserStatusEvent(u, online))]
  }

  /** One more chat id adds its send at the end. */
  lemma StatusSendsSnoc(groups: map<string, set<ChannelName>>, ids: seq<ChatId>, i: nat, u: UserId, online: bool)
    requires i < |ids|
    ensures StatusSends(groups, ids[..i + 1], u, online)
         == StatusSends(groups, ids[..i], u, online)
            + [Send(GroupName(ids[i]), SubscribersIn(groups, GroupName(ids[i])), UserStatusEvent(u, online))]
  {
    assert ids[..i + 1][..i] == ids[..i];
  }

  /** Some send of `s` goes to group `g`. */
  predicate Reaches(s: seq<Send>, g: string) {
    exists i :: 0 <= i < |s| && s[i].group == g
  }

  /** A presence change reaches exactly the chats the user belongs to, each
      of them once, always with the same event. */
  lemma StatusSendsOnePerChat(db: Db, groups: map<string, set<ChannelName>>, u: UserId, online: bool)
    ensures forall c: ChatId :: Reaches(StatusSends(groups, MemberChats(db, u), u, online), GroupName(c)) <==> IsMember(db, c, u)
    ensures var s := StatusSends(groups, MemberChats(db, u), u, online);
      && (forall i, j :: 0 <= i < |s| && 0 <= j < |s| && s[i].group == s[j].group ==> i == j)
      && (forall i :: 0 <= i < |s| ==> s[i].event == UserStatusEvent(u, online))
  {
    var ids := MemberChats(db, u);
    var s := StatusSends(groups, ids, u, online);
    forall c: ChatId ensures Reaches(s, GroupName(c)) <==> IsMember(db, c, u) {
      if IsMember(db, c, u) {
        assert c in ids;
        var i :| 0 <= i < |ids| && ids[i] == c;
        assert s[i].group == GroupName(c);
      }
      if Reaches(s, GroupName(c)) {
        var i :| 0 <= i < |s| && s[i].group == GroupName(c);
        GroupNameInjective(ids[i], c);
        assert ids[i] in ids;
      }
    }
    StatusSendsDistinct(groups, ids, u, online);
  }

  /** Strictly ascending chat ids give pairwise different groups. */
  lemma StatusSendsDistinct(groups: map<string, set<ChannelName>>, ids: seq<ChatId>, u: UserId, online: bool)
    requires forall i, j :: 0 <= i < j < |ids| ==> ids[i] < ids[j]
    ensures var s := StatusSends(groups, ids, u, online);
      forall i, j :: 0 <= i < |s| && 0 <= j < |s| && s[i].group == s[j].group ==> i == j
  {
    var s := StatusSends(groups, ids, u, online);
    forall i, j | 0 <= i < |s| && 0 <= j < |s| && s[i].group == s[j].group ensures i == j {
      GroupNameInjective(ids[i], ids[j]);
    }
  }

  // ------------------------------------------------------------ the connection

  datatype ConnState = Connecting | Joined | Closed

  /** `set_online`'s effect on the database. */
  function WithOnline(db: Db, u: UserId): (r: Db)
    ensures r == db.(presence := r.presence) && u in r.presence && r.presence[u].isOnline
    ensures r.presence[u].lastSeen == PresenceOf(db, u).lastSeen
    ensures forall v :: v != u ==> PresenceOf(r, v) == PresenceOf(db, v)
  {
    db.(presence := db.presence[u := WentOnline(PresenceOf(db, u))])
  }

  /** `set_offline`'s effect on the database. */
  function WithOffline(db: Db, u: UserId, now: Time): (r: Db)
    ensures r == db.(presence := r.presence) && u in r.presence && !r.presence[u].isOnline
    ensures r.presence[u].lastSeen == Some(now)
    ensures forall v :: v != u ==> PresenceOf(r, v) == PresenceOf(db, v)
  {
    db.(presence := db.presence[u := WentOffline(PresenceOf(db, u), now)])
  }

  /** `connect` admits an authenticated user who is a member of the route's chat. */
  predicate Admitted(db: Db, c: ChatId, scopeUser: Option<UserId>) {
    scopeUser.Some? && IsMember(db, c, scopeUser.value)
  }

  class ChatConsumer {
    const channelName: ChannelName
    const store: Store
    const layer: ChannelLayer
    var chatId: ChatId
    var user: Option<UserId>
    var roomGroupName: Option<string>
    var state: ConnState
    /** The frames written to this connection's socket. */
    var sent: seq<OutFrame>

    ghost predicate JoinedOk()
      reads this, store
    {
      && user.Some?
      && UserExists(store.Snapshot(), user.value)
      && IsMember(store.Snapshot(), chatId, user.value)
      && roomGroupName == Some(GroupName(chatId))
    }

    ghost predicate Valid()
      reads this, store
    {
      store.Valid() && (state == Joined ==> JoinedOk())
    }

    constructor (channelName: ChannelName, store: Store, layer: ChannelLayer)
      ensures this.channelName == channelName && this.store == store && this.layer == layer
      ensures state == Connecting && user.None? && roomGroupName.None? && sent == []
    {
      this.channelName := channelName;
      this.store := store;
      this.layer := layer;
      chatId := 0;
      user := None;
      roomGroupName := None;
      state := Connecting;
      sent := [];
    }

    /** `connect`: refuse an anonymous user or a non-member with no other
        effect; otherwise join the chat's group, accept, mark the user online
        and announce it to every chat the user belongs to. */
    method Connect(routeChatId: ChatId, scopeUser: Option<UserId>)
      requires state == Connecting && roomGroupName.None? && store.Valid()
      requires scopeUser.Some? ==> UserExists(store.Snapshot(), scopeUser.value)
      modifies this`chatId, this`user, this`roomGroupName, this`state, store`presence, layer
      ensures Valid()
      ensures chatId == routeChatId && user == scopeUser
      ensures !Admitted(old(store.Snapshot()), routeChatId, scopeUser) ==>
        && state == Closed && roomGroupName.None?
        && store.Snapshot() == old(store.Snapshot())
        && layer.groups == old(layer.groups) && layer.outbox == old(layer.outbox)
      ensures Admitted(old(store.Snapshot()), routeChatId, scopeUser) ==>
        && state == Joined && roomGroupName == Some(GroupName(routeChatId))
        && store.Snapshot() == WithOnline(old(store.Snapshot()), scopeUser.value)
        && layer.groups == Added(old(layer.groups), GroupName(routeChatId), channelName)
        && layer.outbox == old(layer.outbox)
                           + StatusSends(layer.groups, MemberChats(old(store.Snapshot()), scopeUser.value), scopeUser.value, true)
    {
      chatId := routeChatId;
      user := scopeUser;
      if user.None? || !IsMember(store.Snapshot(), chatId, user.value) {
        state := Closed;
        return;
      }
      ghost var db0 := store.Snapshot();
      roomGroupName := Some(GroupName(chatId));
      layer.GroupAdd(roomGroupName.value, channelName);
      state := Joined;
      store.SetOnline(user.value);
      MemberChatsReadsChats(store.Snapshot(), db0, user.value);
      NotifyStatus(true);
    }

    /** `disconnect` of a joined connection: offline with a timestamp,
        announced to every chat of the user while still subscribed, then leave
        the group. */
    method Disconnect(now: Time)
      requires Valid() && state == Joined
      modifies this`state, store`presence, layer
      ensures state == Closed && store.Valid()
      ensures store.Snapshot() == WithOffline(old(store.Snapshot()), user.value, now)
      ensures layer.outbox == old(layer.outbox)
                              + StatusSends(old(layer.groups), MemberChats(old(store.Snapshot()), user.value), user.value, false)
      ensures layer.groups == Discarded(old(layer.groups), roomGroupName.value, channelName)
    {
      ghost var db0 := store.Snapshot();
      ghost var groups0 := layer.groups;
      store.SetOffline(user.value, now);
      MemberChatsReadsChats(store.Snapshot(), db0, user.value);
      NotifyStatus(false);
      assert layer.groups == groups0;
      layer.GroupDiscard(roomGroupName.value, channelName);
      state := Closed;
    }

    /** `notify_status`: a `user_status` event to the group of every chat the user belongs to. */
    method NotifyStatus(isOnline: bool)
      requires user.Some?
      modifies layer`outbox
      ensures layer.outbox == old(layer.outbox)
                              + StatusSends(layer.groups, MemberChats(store.Snapshot(), user.value), user.value, isOnline)
    {
      var u := user.value;
      var ids := MemberChats(store.Snapshot(), u);
      ghost var groups := layer.groups;
      for i := 0 to |ids|
        invariant layer.groups == groups
        invariant layer.outbox == old(layer.outbox) + StatusSends(groups, ids[..i], u, isOnline)
      {
        StatusSendsSnoc(groups, ids, i, u, isOnline);
        layer.GroupSend(GroupName(ids[i]), UserStatusEvent(u, isOnline));
      }
      assert ids[..|ids|] == ids;
    }

    /** `save_message`. */
    method SaveMessage(text: string, now: Time) returns (mid: MessageId)
      requires Valid() && state == Joined
      modifies store`messages, store`statuses
      ensures Valid()
      ensures mid == |old(store.messages)| + 1
      ensures store.Snapshot() == AfterSave(old(store.Snapshot()), chatId, user.value, text, now)
    {
      mid := store.CreateMessage(chatId, user.value, text, None, None, now);
      store.CreateDeliveredStatuses(mid, now);
    }

    /** `update_read_state`. */
    method UpdateReadState(lastId: int, now: Time)
      requires Valid() && state == Joined
      modifies store`readStates, store`statuses
      ensures Valid()
      ensures store.Snapshot() == AfterRead(old(store.Snapshot()), chatId, user.value, lastId, now)
    {
      if lastId <= 0 {
        return;
      }
      var w := store.GetOrCreateReadState(chatId, user.value);
      if lastId > w {
        store.WriteReadState(chatId, user.value, lastId);
        store.MarkStatusesRead(chatId, user.value, lastId, now);
      }
    }

    /** `forward_message`: `None` when the source does not exist; raises when
        the target chat does not. */
    method ForwardMessage(src: Option<int>, target: Option<int>, now: Time) returns (r: Option<MessageId>, raised: bool)
      requires Valid() && state == Joined
      modifies store`messages
      ensures Valid()
      ensures var db := old(store.Snapshot());
        && (!(src.Some? && MessageExists(db, src.value)) ==> r.None? && !raised && store.Snapshot() == db)
        && ((src.Some? && MessageExists(db, src.value) && !(target.Some? && ChatExists(db, target.value)))
              ==> r.None? && raised && store.Snapshot() == db)
        && (src.Some? && MessageExists(db, src.value) && target.Some? && ChatExists(db, target.value) ==>
              && r == Some(|db.messages| + 1) && !raised
              && store.Snapshot() == AfterForward(db, src.value, target.value, user.value, now))
    {
      r, raised := None, false;
      if !(src.Some? && MessageExists(store.Snapshot(), src.value)) {
        return;
      }
      if !(target.Some? && ChatExists(store.Snapshot(), target.value)) {
        raised := true;
        return;
      }
      var original := store.messages[src.value - 1];
      assert MessageOk(store.Snapshot(), src.value, original);
      var mid := store.CreateMessage(target.value, user.value, original.text, Some(src.value), user, now);
      r := Some(mid);
    }

    /** `edit_message`: raises when it would write a missing text into the caller's own message. */
    method EditMessage(id: Option<int>, text: Option<string>, now: Time) returns (raised: bool)
      requires Valid() && state == Joined
      modifies store`messages
      ensures Valid()
      ensures raised == (SenderMatches(old(store.Snapshot()), id, user.value) && text.None?)
      ensures store.Snapshot() == if text.Some? then AfterEdit(old(store.Snapshot()), id, user.value, text.value, now)
                                  else old(store.Snapshot())
    {
      raised := false;
      if SenderMatches(store.Snapshot(), id, user.value) {
        if text.None? {
          raised := true;
          return;
        }
        var m := store.messages[id.value - 1];
        assert MessageOk(store.Snapshot(), id.value, m);
        store.WriteMessage(id.value, Edited(m, text.value, now));
      }
    }

    /** `delete_message`. */
    method DeleteMessage(id: Option<int>)
      requires Valid() && state == Joined
      modifies store`messages
      ensures Valid()
      ensures store.Snapshot() == AfterDelete(old(store.Snapshot()), id, user.value)
    {
      if SenderMatches(store.Snapshot(), id, user.value) {
        var m := store.messages[id.value - 1];
        assert MessageOk(store.Snapshot(), id.value, m);
        store.WriteMessage(id.value, Tombstoned(m));
      }
    }

    /** `receive`: performs exactly `ReceiveStep`. An exception it raises
        ends the connection: the socket is closed and, since `disconnect` is
        not run, presence and group membership stay as they were. */
    method Receive(ev: Inbound, now: Time) returns (outcome: Outcome)
      requires Valid() && state == Joined
      modifies this`state, store`messages, store`statuses, store`readStates, layer`outbox
      ensures Valid()
      ensures state == (if outcome == Raised then Closed else Joined)
      ensures var step := ReceiveStep(old(store.Snapshot()), layer.groups, chatId, user.value, ev, now);
        && store.Snapshot() == step.db
        && layer.outbox == old(layer.outbox) + step.sends
        && outcome == step.outcome
    {
      outcome := Handled;
      match ev
      case InMessage(text) =>
        ReceiveMessage(text, now);
      case InTyping(flag) =>
        var u := user.value;
        layer.GroupSend(roomGroupName.value, TypingEvent(u, store.users[u - 1].username, flag.GetOr(true)));
      case InRead(last) =>
        ReceiveRead(last, now);
      case InForward(src, target) =>
        outcome := ReceiveForward(src, target, now);
      case InEdit(id, text) =>
        outcome := ReceiveEdit(id, text, now);
      case InDelete(id) =>
        ReceiveDelete(id);
      case InOther(_) =>
    }

    /** The `"message"` branch of `receive`: save, then broadcast to the room. */
    method ReceiveMessage(text: Option<string>, now: Time)
      requires Valid() && state == Joined
      modifies store`messages, store`statuses, layer`outbox
      ensures Valid()
      ensures var step := ReceiveStep(old(store.Snapshot()), layer.groups, chatId, user.value, InMessage(text), now);
        store.Snapshot() == step.db && layer.outbox == old(layer.outbox) + step.sends
    {
      var u := user.value;
      var name := store.users[u - 1].username;
      var mid := SaveMessage(text.GetOr(""), now);
      layer.GroupSend(roomGroupName.value, ChatMessage(mid, text.GetOr(""), name, u, None, None, now));
    }

    /** The `"read"` branch of `receive`: update the read state, then broadcast. */
    method ReceiveRead(last: Option<int>, now: Time)
      requires Valid() && state == Joined
      modifies store`readStates, store`statuses, layer`outbox
      ensures Valid()
      ensures var step := ReceiveStep(old(store.Snapshot()), layer.groups, chatId, user.value, InRead(last), now);
        store.Snapshot() == step.db && layer.outbox == old(layer.outbox) + step.sends
    {
      UpdateReadState(last.GetOr(0), now);
      layer.GroupSend(roomGroupName.value, ReadUpdate(user.value, last.GetOr(0)));
    }

    /** The `"forward"` branch of `receive`: the copy is broadcast to the
        target chat's group, not to this connection's room. */
    method ReceiveForward(src: Option<int>, target: Option<int>, now: Time) returns (outcome: Outcome)
      requires Valid() && state == Joined
      modifies this`state, store`messages, layer`outbox
      ensures Valid()
      ensures state == (if outcome == Raised then Closed else Joined)
      ensures var step := ReceiveStep(old(store.Snapshot()), layer.groups, chatId, user.value, InForward(src, target), now);
        && store.Snapshot() == step.db
        && layer.outbox == old(layer.outbox) + step.sends
        && outcome == step.outcome
    {
      var u := user.value;
      var name := store.users[u - 1].username;
      ghost var db0 := store.Snapshot();
      var r, raised := ForwardMessage(src, target, now);
      outcome := Handled;
      if raised {
        outcome := Raised;
        state := Closed;
      } else if r.Some? {
        var original := store.messages[src.value - 1];
        assert original == MessageOf(db0, src.value);
        assert MessageOk(db0, src.value, original);
        var originalSender := store.users[original.sender - 1].username;
        layer.GroupSend(GroupName(target.value),
                        ChatMessage(r.value, original.text, name, u, Some(true), Some(originalSender), now));
      }
    }

    /** The `"message_edit"` branch of `receive`. */
    method ReceiveEdit(id: Option<int>, text: Option<string>, now: Time) returns (outcome: Outcome)
      requires Valid() && state == Joined
      modifies this`state, store`messages, layer`outbox
      ensures Valid()
      ensures state == (if outcome == Raised then Closed else Joined)
      ensures var step := ReceiveStep(old(store.Snapshot()), layer.groups, chatId, user.value, InEdit(id, text), now);
        && store.Snapshot() == step.db
        && layer.outbox == old(layer.outbox) + step.sends
        && outcome == step.outcome
    {
      var raised := EditMessage(id, text, now);
      if raised {
        outcome := Raised;
        state := Closed;
      } else {
        outcome := Handled;
        layer.GroupSend(roomGroupName.value, MessageEdit(id, text));
      }
    }

    /** The `"message_delete"` branch of `receive` (which reads no clock). */
    method ReceiveDelete(id: Option<int>)
      requires Valid() && state == Joined
      modifies store`messages, layer`outbox
      ensures Valid()
      ensures var step := ReceiveStep(old(store.Snapshot()), layer.groups, chatId, user.value, InDelete(id), 0);
        store.Snapshot() == step.db && layer.outbox == old(layer.outbox) + step.sends
    {
      DeleteMessage(id);
      layer.GroupSend(roomGroupName.value, MessageDelete(id));
    }

    /** The outbound handlers: write the frame `Outbound` gives, if any, to this socket. */
    method Handle(ev: GroupEvent)
      requires state == Joined && user.Some?
      modifies this`sent
      ensures sent == old(sent) + (if Outbound(ev, user.value).Some? then [Outbound(ev, user.value).value] else [])
      ensures ev.TypingEvent? && ev.userId == user.value ==> sent == old(sent)
    {
      var f := Outbound(ev, user.value);
      if f.Some? {
        sent := sent + [f.value];
      }
    }
  }
}
