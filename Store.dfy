/** The persistence layer as one mutable object: the ORM calls the handlers make
    become the methods of `Store`, each stated against the database value
    `Snapshot()` before and after, and each keeping the schema's integrity rules. */
module Store {
  import opened Common
  import opened UserModels
  import opened ChatModels
  import opened MessageModels
  import opened Schema

  /** Adding one recipient's row to the rows inserted so far. */
  lemma DeliveredRowsStep(base: map<StatusKey, MessageStatus>, mid: MessageId, done: set<UserId>, u: UserId, now: Time)
    ensures (base + DeliveredRows(mid, done, now))[StatusKey(mid, u) := DeliveredStatus(now)]
         == base + DeliveredRows(mid, done + {u}, now)
  {
    var lhs := (base + DeliveredRows(mid, done, now))[StatusKey(mid, u) := DeliveredStatus(now)];
    var rhs := base + DeliveredRows(mid, done + {u}, now);
    assert lhs.Keys == rhs.Keys;
    assert forall k :: k in lhs ==> lhs[k] == rhs[k];
  }

  class Store {
    var users: seq<User>
    var chats: seq<Chat>
    var messages: seq<Message>
    var statuses: map<StatusKey, MessageStatus>
    var readStates: map<ReadKey, nat>
    var pins: seq<Pin>
    var presence: map<UserId, Presence>

    /** The whole database, as one value. */
    function Snapshot(): Db
      reads this`users, this`chats, this`messages, this`statuses, this`readStates, this`pins, this`presence
    {
      Db(users, chats, messages, statuses, readStates, pins, presence)
    }

    ghost predicate Valid()
      reads this
    {
      Schema.Valid(Snapshot())
    }

    constructor ()
      ensures Valid() && Snapshot() == EMPTY
    {
      users, chats, messages, statuses, readStates, pins, presence := [], [], [], map[], map[], [], map[];
    }

    /** `User.objects.create_user(...)`, which stores the address as
        `normalize_email` gives it, followed by the `post_save` hook that
        creates the user's `UserStatus` row. */
    method CreateUser(username: string, email: string) returns (id: UserId)
      requires Valid()
      requires !UsernameTaken(Snapshot(), username)
      modifies this`users, this`presence
      ensures Valid()
      ensures id == |old(users)| + 1
      ensures Snapshot() == old(Snapshot()).(users := old(users) + [User(username, NormalizeEmail(email))],
                                             presence := old(presence)[id := INITIAL_PRESENCE])
    {
      var x := User(username, NormalizeEmail(email));
      AddUserValid(Snapshot(), x);
      users := users + [x];
      id := |users|;
      presence := presence[id := INITIAL_PRESENCE];
    }

    /** `Chat.objects.create(...)` followed by `chat.members.add(...)`. */
    method CreateChat(kind: ChatKind, name: Option<string>, members: set<UserId>, now: Time) returns (id: ChatId)
      requires Valid() && ChatOk(Snapshot(), Chat(kind, name, members, now))
      modifies this`chats
      ensures Valid()
      ensures id == |old(chats)| + 1
      ensures Snapshot() == old(Snapshot()).(chats := old(chats) + [Chat(kind, name, members, now)])
    {
      AddChatValid(Snapshot(), Chat(kind, name, members, now));
      chats := chats + [Chat(kind, name, members, now)];
      id := |chats|;
    }

    /** `Message.objects.create(...)`. */
    method CreateMessage(chat: ChatId, sender: UserId, text: string,
                         forwardedFrom: Option<MessageId>, forwardedBy: Option<UserId>,
                         now: Time) returns (id: MessageId)
      requires Valid()
      requires MessageOk(Snapshot(), |messages| + 1, NewMessage(chat, sender, text, forwardedFrom, forwardedBy, now))
      modifies this`messages
      ensures Valid()
      ensures id == |old(messages)| + 1
      ensures Snapshot() == old(Snapshot()).(messages := old(messages) + [NewMessage(chat, sender, text, forwardedFrom, forwardedBy, now)])
    {
      var m := NewMessage(chat, sender, text, forwardedFrom, forwardedBy, now);
      AddMessageValid(Snapshot(), m);
      messages := messages + [m];
      id := |messages|;
    }

    /** The loop both message-creating handlers run after the insert: one
        delivered status per member of the message's chat other than its sender. */
    method CreateDeliveredStatuses(mid: MessageId, now: Time)
      requires Valid() && MessageExists(Snapshot(), mid)
      modifies this`statuses
      ensures Valid()
      ensures ChatExists(old(Snapshot()), MessageOf(old(Snapshot()), mid).chat)
      ensures Snapshot() == old(Snapshot()).(statuses := old(statuses) + DeliveredRows(mid, Recipients(old(Snapshot()), mid), now))
    {
      AddDeliveredValid(Snapshot(), mid, now);
      InsertDelivered(mid, Recipients(Snapshot(), mid), now);
    }

    /** The insert loop: one delivered row per recipient, in any order. */
    method InsertDelivered(mid: MessageId, recipients: set<UserId>, now: Time)
      modifies this`statuses
      ensures statuses == old(statuses) + DeliveredRows(mid, recipients, now)
    {
      var remaining := recipients;
      ghost var done: set<UserId> := {};
      while remaining != {}
        invariant done <= recipients && remaining == recipients - done
        invariant statuses == old(statuses) + DeliveredRows(mid, done, now)
        decreases remaining
      {
        var u :| u in remaining;
        DeliveredRowsStep(old(statuses), mid, done, u, now);
        statuses := statuses[StatusKey(mid, u) := DeliveredStatus(now)];
        remaining := remaining - {u};
        done := done + {u};
      }
      assert done == recipients;
    }

    /** `ChatReadState.objects.get_or_create(chat=c, user=u)`: the stored
        watermark, or a new row holding the default. */
    method GetOrCreateReadState(c: ChatId, u: UserId) returns (w: nat)
      requires Valid() && IsMember(Snapshot(), c, u)
      modifies this`readStates
      ensures Valid()
      ensures w == Watermark(old(Snapshot()), c, u)
      ensures Snapshot() == old(Snapshot()).(readStates := old(readStates)[ReadKey(c, u) := w])
    {
      var k := ReadKey(c, u);
      if k !in readStates {
        SetReadStateValid(Snapshot(), c, u, DEFAULT_WATERMARK);
        readStates := readStates[k := DEFAULT_WATERMARK];
      }
      w := readStates[k];
    }

    /** The `get_or_create` loop over the members of a chat just created: none
        of them has a read state in it yet, so each call creates one. */
    method CreateReadStates(c: ChatId)
      requires Valid() && c == |chats| && c >= 1
      requires forall k :: k in readStates ==> k.chat != c
      modifies this`readStates
      ensures Valid()
      ensures Snapshot() == old(Snapshot()).(readStates := old(readStates) + ReadRows(c, chats[c - 1].members))
    {
      NewChatReadStatesValid(Snapshot(), chats[c - 1].members);
      InsertReadStates(c, chats[c - 1].members);
    }

    /** The insert loop: one default row per member, in any order. */
    method InsertReadStates(c: ChatId, members: set<UserId>)
      modifies this`readStates
      ensures readStates == old(readStates) + ReadRows(c, members)
    {
      var remaining := members;
      ghost var done: set<UserId> := {};
      while remaining != {}
        invariant done <= members && remaining == members - done
        invariant readStates == old(readStates) + ReadRows(c, done)
        decreases remaining
      {
        var u :| u in remaining;
        assert (old(readStates) + ReadRows(c, done))[ReadKey(c, u) := DEFAULT_WATERMARK]
            == old(readStates) + ReadRows(c, done + {u});
        readStates := readStates[ReadKey(c, u) := DEFAULT_WATERMARK];
        remaining := remaining - {u};
        done := done + {u};
      }
      assert done == members;
    }

    /** `read_state.last_read_message_id = w; read_state.save()`. */
    method WriteReadState(c: ChatId, u: UserId, w: nat)
      requires Valid() && IsMember(Snapshot(), c, u)
      modifies this`readStates
      ensures Valid()
      ensures Snapshot() == old(Snapshot()).(readStates := old(readStates)[ReadKey(c, u) := w])
    {
      SetReadStateValid(Snapshot(), c, u, w);
      readStates := readStates[ReadKey(c, u) := w];
    }

    /** The bulk read-marking update of the consumer. */
    method MarkStatusesRead(c: ChatId, u: UserId, upTo: int, now: Time)
      requires Valid()
      modifies this`statuses
      ensures Valid()
      ensures Snapshot() == old(Snapshot()).(statuses := StatusesAfterMarkRead(old(Snapshot()), c, u, upTo, now))
    {
      MarkReadValid(Snapshot(), c, u, upTo, now);
      statuses := StatusesAfterMarkRead(Snapshot(), c, u, upTo, now);
    }

    /** Saves a changed message row (an edit or a soft delete). */
    method WriteMessage(mid: MessageId, m: Message)
      requires Valid() && MessageExists(Snapshot(), mid)
      requires m.chat == MessageOf(Snapshot(), mid).chat && m.sender == MessageOf(Snapshot(), mid).sender
      requires m.forwardedFrom == MessageOf(Snapshot(), mid).forwardedFrom
      requires m.forwardedBy == MessageOf(Snapshot(), mid).forwardedBy
      requires m.isEdited <==> m.editedAt.Some?
      modifies this`messages
      ensures Valid()
      ensures Snapshot() == old(Snapshot()).(messages := old(messages)[mid - 1 := m])
    {
      ReplaceMessageValid(Snapshot(), mid, m);
      messages := messages[mid - 1 := m];
    }

    /** `set_online`: `get_or_create` the user's row, then `go_online()`,
        whose `save()` writes the row back. */
    method SetOnline(u: UserId)
      requires Valid() && UserExists(Snapshot(), u)
      modifies this`presence
      ensures Valid()
      ensures Snapshot() == old(Snapshot()).(presence := old(presence)[u := WentOnline(PresenceOf(old(Snapshot()), u))])
    {
      var row := new UserStatus(PresenceOf(Snapshot(), u));
      row.GoOnline();
      presence := presence[u := row.View()];
    }

    /** `set_offline`: `get_or_create` the user's row, then `go_offline()`. */
    method SetOffline(u: UserId, now: Time)
      requires Valid() && UserExists(Snapshot(), u)
      modifies this`presence
      ensures Valid()
      ensures Snapshot() == old(Snapshot()).(presence := old(presence)[u := WentOffline(PresenceOf(old(Snapshot()), u), now)])
    {
      var row := new UserStatus(PresenceOf(Snapshot(), u));
      row.GoOffline(now);
      presence := presence[u := row.View()];
    }
  }
}
