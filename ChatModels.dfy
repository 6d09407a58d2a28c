/** The `Chat` record, its type constants, and the per-(chat, user) read state. */
module ChatModels {
  import opened Common
  import Text

  const PRIVATE := "private"
  const GROUP := "group"

  /** The two entries of `CHAT_TYPES`. */
  datatype ChatKind = Private | Group

  /** The string stored in the `type` column. */
  function KindCode(k: ChatKind): string {
    match k
    case Private => PRIVATE
    case Group => GROUP
  }

  /** The `choices` check: only the two declared codes name a chat type. */
  function ParseKind(s: string): (r: Option<ChatKind>)
    ensures r.Some? <==> (s == PRIVATE || s == GROUP)
    ensures r.Some? ==> KindCode(r.value) == s
  {
    if s == PRIVATE then Some(Private) else if s == GROUP then Some(Group) else None
  }

  lemma ParseKindCode(k: ChatKind)
    ensures ParseKind(KindCode(k)) == Some(k)
  {
  }

  /** A chat row together with its member set. `name` is nullable. */
  datatype Chat = Chat(kind: ChatKind, name: Option<string>, members: set<UserId>, createdAt: Time)

  /** `is_private()`: the stored type code is `"private"`. */
  function IsPrivate(c: Chat): (r: bool)
    ensures r <==> KindCode(c.kind) == PRIVATE
  {
    c.kind == Private
  }

  /** `__str__`: the name when it is set and non-empty, `"Chat <id>"` otherwise. */
  function ChatStr(id: ChatId, c: Chat): (s: string)
    ensures c.name.Some? && c.name.value != "" ==> s == c.name.value
    ensures !(c.name.Some? && c.name.value != "") ==> s == "Chat " + Text.DecimalString(id)
  {
    if c.name.Some? && c.name.value != "" then c.name.value else "Chat " + Text.DecimalString(id)
  }

  /** Two unnamed chats never print the same. */
  lemma ChatStrFallbackInjective(id1: ChatId, c1: Chat, id2: ChatId, c2: Chat)
    requires c1.name.None? && c2.name.None?
    requires ChatStr(id1, c1) == ChatStr(id2, c2)
    ensures id1 == id2
  {
    var p := "Chat ";
    assert (p + Text.DecimalString(id1))[|p|..] == Text.DecimalString(id1);
    assert (p + Text.DecimalString(id2))[|p|..] == Text.DecimalString(id2);
    Text.DecimalStringInjective(id1, id2);
  }

  /** `ChatReadState.last_read_message_id` default. The column is a positive
      integer field, so values are `nat`. */
  const DEFAULT_WATERMARK: nat := 0
}
