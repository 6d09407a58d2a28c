/** `ChatViewSet`: creating private and group chats, and the REST read
    endpoint. Each handler is a pure step on the database value, and a method
    on the store proved to perform that step. */
module ChatViews {
  import opened Common
  import opened ChatModels
  import opened Schema
  import opened Store

  /** A create request after validation: the private form names the other
      user, the group form lists member ids and an optional name. */
  datatype CreateChatRequest =
    | PrivateRequest(otherId: int)
    | GroupRequest(memberIds: seq<int>, name: Option<string>)

  datatype ChatReply =
    | ExistingChat(id: ChatId)   // 200: the private chat already there
    | CreatedChat(id: ChatId)    // 201
    | ChatNotFound               // 404: the other user does not exist
    | ChatBadRequest             // 400: no member id names a user

  datatype CreateOutcome = CreateOutcome(db: Db, reply: ChatReply)

  /** Chat `c` is a private chat with both `a` and `b` among its members. */
  predicate PrivateWith(db: Db, c: int, a: UserId, b: UserId) {
    IsMember(db, c, a) && IsMember(db, c, b) && ChatOf(db, c).kind.Private?
  }

  /** The first private chat after `i` holding both users. */
  function FindPrivateFrom(db: Db, a: UserId, b: UserId, i: nat): (r: Option<ChatId>)
    requires i <= |db.chats|
    ensures r.Some? ==> i < r.value && PrivateWith(db, r.value, a, b)
    ensures r.Some? ==> forall c :: i < c < r.value ==> !PrivateWith(db, c, a, b)
    ensures r.None? ==> forall c :: i < c ==> !PrivateWith(db, c, a, b)
    decreases |db.chats| - i
  {
    if i == |db.chats| then None
    else if PrivateWith(db, i + 1, a, b) then Some(i + 1)
    else FindPrivateFrom(db, a, b, i + 1)
  }

  /** The de-duplication lookup: the private chat with the smallest id that
      holds both users, if there is one. */
  function FindPrivateChat(db: Db, a: UserId, b: UserId): (r: Option<ChatId>)
    ensures r.Some? ==> PrivateWith(db, r.value, a, b)
    ensures r.Some? ==> forall c :: c < r.value ==> !PrivateWith(db, c, a, b)
    ensures r.None? <==> forall c :: !PrivateWith(db, c, a, b)
  {
    FindPrivateFrom(db, a, b, 0)
  }

  /** The existing users among the requested ids (`User.objects.filter(id__in=...)`). */
  function FoundUsers(db: Db, ids: seq<int>): (found: set<UserId>)
    ensures forall u: UserId :: u in found <==> u in ids && UserExists(db, u)
  {
    set x: UserId | x in ids && UserExists(db, x)
  }

  /** A chat row inserted with its members, then a read state for each member. */
  function WithNewChat(db: Db, ch: Chat): Db {
    var c := |db.chats| + 1;
    db.(chats := db.chats + [ch], readStates := db.readStates + ReadRows(c, ch.members))
  }

  /** `ChatViewSet.create`. */
  function CreateChatStep(db: Db, requester: UserId, req: CreateChatRequest, now: Time): CreateOutcome {
    match req
    case PrivateRequest(other) =>
      if !UserExists(db, other) then CreateOutcome(db, ChatNotFound)
      else
        var existing := FindPrivateChat(db, requester, other);
        if existing.Some? then CreateOutcome(db, ExistingChat(existing.value))
        else CreateOutcome(WithNewChat(db, Chat(Private, None, {requester, other}, now)), CreatedChat(|db.chats| + 1))
    case GroupRequest(ids, name) =>
      var found := FoundUsers(db, ids);
      if |found| < 1 then CreateOutcome(db, ChatBadRequest)
      else CreateOutcome(WithNewChat(db, Chat(Group, name, {requester} + found, now)), CreatedChat(|db.chats| + 1))
  }

  // ------------------------------------------------------------ properties of create

  /** A private create naming a user that does not exist answers 404 and changes nothing. */
  lemma PrivateUnknownUser(db: Db, requester: UserId, other: int, now: Time)
    requires !UserExists(db, other)
    ensures CreateChatStep(db, requester, PrivateRequest(other), now) == CreateOutcome(db, ChatNotFound)
  {
  }

  /** When a private chat with both users exists, the smallest such one is
      returned and nothing is created. */
  lemma PrivateDeduplicated(db: Db, requester: UserId, other: UserId, c: ChatId, now: Time)
    requires UserExists(db, other) && PrivateWith(db, c, requester, other)
    ensures var r := CreateChatStep(db, requester, PrivateRequest(other), now);
      && r.db == db && r.reply.ExistingChat?
      && PrivateWith(db, r.reply.id, requester, other) && r.reply.id <= c
  {
  }

  /** A new private chat holds exactly the two users, is appended with the next
      id, and both users get a read state at the default watermark; no other
      table or read state changes. */
  lemma PrivateCreated(db: Db, requester: UserId, other: UserId, now: Time)
    requires UserExists(db, other) && FindPrivateChat(db, requester, other).None?
    ensures var r := CreateChatStep(db, requester, PrivateRequest(other), now);
      var c := |db.chats| + 1;
      && r.reply == CreatedChat(c)
      && r.db.chats == db.chats + [Chat(Private, None, {requester, other}, now)]
      && Watermark(r.db, c, requester) == DEFAULT_WATERMARK && ReadKey(c, requester) in r.db.readStates
      && Watermark(r.db, c, other) == DEFAULT_WATERMARK && ReadKey(c, other) in r.db.readStates
      && r.db.messages == db.messages && r.db.statuses == db.statuses
      && r.db == db.(chats := r.db.chats, readStates := r.db.readStates)
      && (forall k :: k in r.db.readStates && k.chat != c <==> k in db.readStates && k.chat != c)
      && (forall k :: k in db.readStates && k.chat != c ==> r.db.readStates[k] == db.readStates[k])
  {
  }

  /** Asking twice for the same private chat creates it once: the second
      request returns the chat the first one created. */
  lemma PrivateCreateIdempotent(db: Db, requester: UserId, other: UserId, now: Time, later: Time)
    requires UserExists(db, requester) && UserExists(db, other)
    requires FindPrivateChat(db, requester, other).None?
    ensures var first := CreateChatStep(db, requester, PrivateRequest(other), now);
      CreateChatStep(first.db, requester, PrivateRequest(other), later) == CreateOutcome(first.db, ExistingChat(first.reply.id))
  {
    var first := CreateChatStep(db, requester, PrivateRequest(other), now);
    var c := |db.chats| + 1;
    assert PrivateWith(first.db, c, requester, other);
    forall c' | c' < c ensures !PrivateWith(first.db, c', requester, other) {
      if ChatExists(first.db, c') {
        assert first.db.chats[c' - 1] == db.chats[c' - 1];
        assert !PrivateWith(db, c', requester, other);
      }
    }
  }

  /** A group create whose ids name no user answers 400 and changes nothing. */
  lemma GroupWithoutUsers(db: Db, requester: UserId, ids: seq<int>, name: Option<string>, now: Time)
    requires forall i :: 0 <= i < |ids| ==> !UserExists(db, ids[i])
    ensures CreateChatStep(db, requester, GroupRequest(ids, name), now) == CreateOutcome(db, ChatBadRequest)
  {
  }

  /** A new group chat has the requester and exactly the existing users among
      the ids as members; unknown ids are dropped; every member gets a read
      state at the default watermark. It is the one chat appended, and no
      other table or read state changes. */
  lemma GroupCreated(db: Db, requester: UserId, ids: seq<int>, name: Option<string>, now: Time, u: UserId)
    requires exists i :: 0 <= i < |ids| && UserExists(db, ids[i])
    ensures var r := CreateChatStep(db, requester, GroupRequest(ids, name), now);
      var c := |db.chats| + 1;
      && r.reply == CreatedChat(c)
      && IsMember(r.db, c, u) == (u == requester || (u in ids && UserExists(db, u)))
      && ChatOf(r.db, c).kind == Group && ChatOf(r.db, c).name == name
      && (IsMember(r.db, c, u) ==> ReadKey(c, u) in r.db.readStates && Watermark(r.db, c, u) == DEFAULT_WATERMARK)
      && r.db.chats == db.chats + [Chat(Group, name, {requester} + FoundUsers(db, ids), now)]
      && r.db == db.(chats := r.db.chats, readStates := r.db.readStates)
      && (forall k :: k in r.db.readStates && k.chat != c <==> k in db.readStates && k.chat != c)
      && (forall k :: k in db.readStates && k.chat != c ==> r.db.readStates[k] == db.readStates[k])
  {
    var i :| 0 <= i < |ids| && UserExists(db, ids[i]);
    var x: UserId := ids[i];
    assert x in FoundUsers(db, ids);
  }

  /** Creating a chat keeps the schema rules. */
  lemma CreateChatValid(db: Db, requester: UserId, req: CreateChatRequest, now: Time)
    requires Valid(db) && UserExists(db, requester)
    ensures Valid(CreateChatStep(db, requester, req, now).db)
  {
    var r := CreateChatStep(db, requester, req, now);
    if r.db != db {
      var ch := r.db.chats[|db.chats|];
      assert r.db == WithNewChat(db, ch);
      assert ChatOk(db, ch);
      AddChatValid(db, ch);
      NewChatReadStatesValid(db.(chats := db.chats + [ch]), ch.members);
    }
  }

  // ------------------------------------------------------------ the REST read endpoint

  datatype ReadReply =
    | ReadOk               // {"status": "ok"}
    | ReadNotFound         // 404: not a chat of the requester
    | ReadBadRequest       // 400: no last_read_message_id
    | ReadIntegrityError   // the positive-integer column rejects a negative value

  datatype ReadOutcome = ReadOutcome(db: Db, reply: ReadReply)

  /** `ChatViewSet.update_read_state`: the member check, the required value,
      `get_or_create`, then an unconditional overwrite. A negative value
      fails at `save()`, after `get_or_create` has already stored its row. */
  function RestReadStep(db: Db, requester: UserId, pk: int, value: Option<int>): ReadOutcome {
    if !IsMember(db, pk, requester) then ReadOutcome(db, ReadNotFound)
    else if value.None? then ReadOutcome(db, ReadBadRequest)
    else
      var k := ReadKey(pk, requester);
      var db1 := db.(readStates := db.readStates[k := Watermark(db, pk, requester)]);
      if value.value < 0 then ReadOutcome(db1, ReadIntegrityError)
      else ReadOutcome(db1.(readStates := db1.readStates[k := value.value]), ReadOk)
  }

  /** Non-members get 404 and a missing value 400, and neither changes anything. */
  lemma RestReadRejects(db: Db, requester: UserId, pk: int, value: Option<int>)
    ensures !IsMember(db, pk, requester) ==> RestReadStep(db, requester, pk, value) == ReadOutcome(db, ReadNotFound)
    ensures IsMember(db, pk, requester) && value.None? ==>
      RestReadStep(db, requester, pk, value) == ReadOutcome(db, ReadBadRequest)
  {
  }

  /** The REST endpoint sets the watermark to the submitted value, lower or
      not, marks no status read, and touches no other read state. */
  lemma RestReadOverwrites(db: Db, requester: UserId, c: ChatId, v: nat)
    requires IsMember(db, c, requester)
    ensures var r := RestReadStep(db, requester, c, Some(v));
      && r.reply == ReadOk && Watermark(r.db, c, requester) == v
      && r.db.statuses == db.statuses && r.db.messages == db.messages && r.db.chats == db.chats
      && (forall c', u' :: (c' != c || u' != requester) ==> Watermark(r.db, c', u') == Watermark(db, c', u'))
  {
  }

  /** The REST endpoint is not monotonic: a member can move their watermark
      back to any smaller value, and the call still answers 200. */
  lemma RestReadCanLowerWatermark(db: Db, requester: UserId, c: ChatId, v: nat)
    requires IsMember(db, c, requester) && v < Watermark(db, c, requester)
    ensures var r := RestReadStep(db, requester, c, Some(v));
      r.reply == ReadOk && Watermark(r.db, c, requester) == v < Watermark(db, c, requester)
  {
    RestReadOverwrites(db, requester, c, v);
  }

  lemma RestReadValid(db: Db, requester: UserId, pk: int, value: Option<int>)
    requires Valid(db)
    ensures Valid(RestReadStep(db, requester, pk, value).db)
  {
    if IsMember(db, pk, requester) && value.Some? {
      SetReadStateValid(db, pk, requester, Watermark(db, pk, requester));
      var db1 := db.(readStates := db.readStates[ReadKey(pk, requester) := Watermark(db, pk, requester)]);
      if value.value >= 0 {
        SetReadStateValid(db1, pk, requester, value.value);
      }
    }
  }

  // ------------------------------------------------------------ the handlers

  /** `ChatViewSet.create` on the store. */
  method Create(store: Store, requester: UserId, req: CreateChatRequest, now: Time) returns (reply: ChatReply)
    requires store.Valid() && UserExists(store.Snapshot(), requester)
    modifies store`chats, store`readStates
    ensures store.Valid()
    ensures CreateOutcome(store.Snapshot(), reply) == CreateChatStep(old(store.Snapshot()), requester, req, now)
  {
    match req
    case PrivateRequest(other) =>
      reply := CreatePrivate(store, requester, other, now);
    case GroupRequest(ids, name) =>
      reply := CreateGroup(store, requester, ids, name, now);
  }

  /** Two `get_or_create` calls on fresh keys add the same rows as the loop would. */
  lemma ReadRowsOfPair(base: map<ReadKey, nat>, c: ChatId, a: UserId, b: UserId)
    ensures base[ReadKey(c, a) := DEFAULT_WATERMARK][ReadKey(c, b) := DEFAULT_WATERMARK] == base + ReadRows(c, {a, b})
  {
    var lhs := base[ReadKey(c, a) := DEFAULT_WATERMARK][ReadKey(c, b) := DEFAULT_WATERMARK];
    var rhs := base + ReadRows(c, {a, b});
    assert lhs.Keys == rhs.Keys;
    forall k | k in lhs ensures lhs[k] == rhs[k] {
      if k in ReadRows(c, {a, b}) {
        assert k == ReadKey(c, a) || k == ReadKey(c, b);
      }
    }
  }

  method CreatePrivate(store: Store, requester: UserId, other: int, now: Time) returns (reply: ChatReply)
    requires store.Valid() && UserExists(store.Snapshot(), requester)
    modifies store`chats, store`readStates
    ensures store.Valid()
    ensures CreateOutcome(store.Snapshot(), reply) == CreateChatStep(old(store.Snapshot()), requester, PrivateRequest(other), now)
  {
    if !UserExists(store.Snapshot(), other) {
      return ChatNotFound;
    }
    var existing := FindPrivateChat(store.Snapshot(), requester, other);
    if existing.Some? {
      return ExistingChat(existing.value);
    }
    ghost var db0 := store.Snapshot();
    NoReadStatesOfNextChat(db0);
    ghost var ch := Chat(Private, None, {requester, other}, now);
    var c := store.CreateChat(Private, None, {requester, other}, now);
    ghost var db1 := store.Snapshot();
    assert IsMember(db1, c, requester) && IsMember(db1, c, other);
    var w1 := store.GetOrCreateReadState(c, requester);
    var w2 := store.GetOrCreateReadState(c, other);
    assert store.readStates == db0.readStates[ReadKey(c, requester) := DEFAULT_WATERMARK][ReadKey(c, other) := DEFAULT_WATERMARK];
    ReadRowsOfPair(db0.readStates, c, requester, other);
    assert store.Snapshot() == WithNewChat(db0, ch);
    reply := CreatedChat(c);
  }

  method CreateGroup(store: Store, requester: UserId, ids: seq<int>, name: Option<string>, now: Time) returns (reply: ChatReply)
    requires store.Valid() && UserExists(store.Snapshot(), requester)
    modifies store`chats, store`readStates
    ensures store.Valid()
    ensures CreateOutcome(store.Snapshot(), reply) == CreateChatStep(old(store.Snapshot()), requester, GroupRequest(ids, name), now)
  {
    var found := FoundUsers(store.Snapshot(), ids);
    if |found| < 1 {
      return ChatBadRequest;
    }
    NoReadStatesOfNextChat(store.Snapshot());
    var c := store.CreateChat(Group, name, {requester} + found, now);
    store.CreateReadStates(c);
    reply := CreatedChat(c);
  }

  /** `ChatViewSet.update_read_state` on the store. */
  method UpdateReadState(store: Store, requester: UserId, pk: int, value: Option<int>) returns (reply: ReadReply)
    requires store.Valid()
    modifies store`readStates
    ensures store.Valid()
    ensures ReadOutcome(store.Snapshot(), reply) == RestReadStep(old(store.Snapshot()), requester, pk, value)
  {
    if !IsMember(store.Snapshot(), pk, requester) {
      return ReadNotFound;
    }
    if value.None? {
      return ReadBadRequest;
    }
    var w := store.GetOrCreateReadState(pk, requester);
    if value.value < 0 {
      return ReadIntegrityError;
    }
    store.WriteReadState(pk, requester, value.value);
    reply := ReadOk;
  }
}
