/** `Message`, `MessageStatus` and `PinnedMessage` records and their small rules. */
module MessageModels {
  import opened Common
  import Text

  /** The placeholder text of a soft-deleted message. */
  const DELETED_TEXT := "Message deleted"

  /** One message row. `forwardedFrom`/`forwardedBy` are the nullable foreign keys. */
  datatype Message = Message(
    chat: ChatId,
    sender: UserId,
    text: string,
    forwardedFrom: Option<MessageId>,
    forwardedBy: Option<UserId>,
    isEdited: bool,
    editedAt: Option<Time>,
    isDeleted: bool,
    createdAt: Time)

  /** `Message.objects.create(...)`: the given columns, the field defaults for
      the rest, and `created_at` stamped with the current time. */
  function NewMessage(chat: ChatId, sender: UserId, text: string,
                      forwardedFrom: Option<MessageId>, forwardedBy: Option<UserId>,
                      now: Time): (m: Message)
    ensures m.chat == chat && m.sender == sender && m.text == text
    ensures m.forwardedFrom == forwardedFrom && m.forwardedBy == forwardedBy
    ensures !m.isEdited && m.editedAt.None? && !m.isDeleted
    ensures m.createdAt == now
  {
    Message(chat, sender, text, forwardedFrom, forwardedBy, false, None, false, now)
  }

  /** An edit: new text, flagged as edited at `now`. */
  function Edited(m: Message, text: string, now: Time): Message {
    m.(text := text, isEdited := true, editedAt := Some(now))
  }

  /** A soft delete: the row stays, flagged, with the placeholder text. */
  function Tombstoned(m: Message): Message {
    m.(text := DELETED_TEXT, isDeleted := true)
  }

  /** Neither edits nor deletes move a message, change who sent it, or restamp it. */
  lemma {:induction false} MutationsKeepIdentity(m: Message, text: string, now: Time)
    ensures var e := Edited(m, text, now);
      e.chat == m.chat && e.sender == m.sender && e.createdAt == m.createdAt
      && e.forwardedFrom == m.forwardedFrom && e.isDeleted == m.isDeleted
    ensures var t := Tombstoned(m);
      t.chat == m.chat && t.sender == m.sender && t.createdAt == m.createdAt
      && t.forwardedFrom == m.forwardedFrom && t.isEdited == m.isEdited
  {
  }

  /** The dictionary `to_dict()` returns. */
  datatype MessageDict = MessageDict(
    id: MessageId, senderId: UserId, senderUsername: string,
    text: string, isEdited: bool, createdAt: Time)

  function ToDict(id: MessageId, m: Message, senderUsername: string): (d: MessageDict)
    ensures d.id == id && d.senderId == m.sender && d.senderUsername == senderUsername
    ensures d.isEdited == m.isEdited && d.createdAt == m.createdAt
    ensures m.isDeleted ==> d.text == DELETED_TEXT
    ensures !m.isDeleted ==> d.text == m.text
  {
    MessageDict(id, m.sender, senderUsername,
                if m.isDeleted then DELETED_TEXT else m.text,
                m.isEdited, m.createdAt)
  }

  /** A deleted message reports the placeholder even after its text was
      overwritten again by a later edit. */
  lemma ToDictHidesTextOfDeleted(id: MessageId, m: Message, text: string, now: Time, name: string)
    ensures ToDict(id, Edited(Tombstoned(m), text, now), name).text == DELETED_TEXT
  {
  }

  /** `to_dict()` says nothing about forwarding: the forward columns do not affect it. */
  lemma ToDictIgnoresForwarding(id: MessageId, m: Message, name: string,
                                origin: Option<MessageId>, forwarder: Option<UserId>)
    ensures ToDict(id, m.(forwardedFrom := origin, forwardedBy := forwarder), name) == ToDict(id, m, name)
  {
  }

  /** `__str__`: the sender's name, a colon, and the first 50 characters of the text, all of it when shorter. */
  function MessageStr(senderUsername: string, text: string): (s: string)
    ensures |senderUsername| + 2 <= |s| <= |senderUsername| + 2 + 50
    ensures s[..|senderUsername| + 2] == senderUsername + ": "
    ensures s[|senderUsername| + 2..] <= text
    ensures |text| <= 50 ==> s == senderUsername + ": " + text
    ensures |text| > 50 ==> s == senderUsername + ": " + text[..50]
  {
    senderUsername + ": " + Text.Take(text, 50)
  }

  /** One `MessageStatus` row. */
  datatype MessageStatus = MessageStatus(delivered: bool, read: bool,
                                         deliveredAt: Option<Time>, readAt: Option<Time>)

  /** Field defaults of a new row. */
  const NEW_STATUS := MessageStatus(false, false, None, None)

  /** The row both message-creating handlers insert for each recipient. */
  function DeliveredStatus(now: Time): (s: MessageStatus)
    ensures s.delivered && s.deliveredAt == Some(now) && !s.read && s.readAt.None?
  {
    NEW_STATUS.(delivered := true, deliveredAt := Some(now))
  }

  /** The bulk `update(read=True, read_at=now)` applied to one row. */
  function MarkedRead(s: MessageStatus, now: Time): (r: MessageStatus)
    ensures r.read && r.readAt == Some(now)
    ensures r.delivered == s.delivered && r.deliveredAt == s.deliveredAt
  {
    s.(read := true, readAt := Some(now))
  }

  /** One `PinnedMessage` row. */
  datatype Pin = Pin(chat: ChatId, message: MessageId, pinnedBy: Option<UserId>, pinnedAt: Time)

  /** `message` is a one-to-one field: no message is pinned twice. */
  predicate PinsOneToOne(pins: seq<Pin>) {
    forall i, j :: 0 <= i < |pins| && 0 <= j < |pins| && i != j ==> pins[i].message != pins[j].message
  }
}
