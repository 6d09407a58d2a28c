/** `MessageViewSet` and `PinnedMessageViewSet`: the history and search
    queries, and message create, update and destroy over REST. Queries are
    functions of the database value; handlers are methods on the store proved
    to perform a pure step. */
module MessageViews {
  import opened Common
  import Text
  import opened ChatModels
  import opened MessageModels
  import opened Schema
  import opened Store

  // ------------------------------------------------------------ query helpers

  /** The ids 1..n that satisfy `p`, ascending: a filtered table scan. */
  function Select(n: nat, p: int -> bool): (r: seq<nat>)
    ensures forall x :: x in r <==> 1 <= x <= n && p(x)
    ensures forall i, j :: 0 <= i < j < |r| ==> r[i] < r[j]
    decreases n
  {
    if n == 0 then []
    else
      var prefix := Select(n - 1, p);
      assert forall i :: 0 <= i < |prefix| ==> prefix[i] < n by {
        forall i | 0 <= i < |prefix| ensures prefix[i] < n {
          assert prefix[i] in prefix;
        }
      }
      prefix + (if p(n) then [n] else [])
  }

  predicate Distinct(s: seq<nat>) {
    forall i, j :: 0 <= i < j < |s| ==> s[i] != s[j]
  }

  /** A strictly ascending sequence holds each value at most once. */
  lemma {:induction false} AscendingOnce(s: seq<nat>, x: nat)
    requires forall i, j :: 0 <= i < j < |s| ==> s[i] < s[j]
    ensures multiset(s)[x] <= 1
    decreases |s|
  {
    if s != [] {
      assert s == [s[0]] + s[1..];
      AscendingOnce(s[1..], x);
      if x == s[0] {
        assert x !in s[1..];
      }
    }
  }

  /** A sequence that holds a value twice has multiplicity at least two for it. */
  lemma TwiceCounted(s: seq<nat>, i: nat, j: nat)
    requires i < j < |s| && s[i] == s[j]
    ensures multiset(s)[s[i]] >= 2
  {
    assert s == s[..j] + s[j..];
    assert s[i] in s[..j];
    assert s[j..][0] == s[j];
  }

  /** A permutation of a strictly ascending sequence has no duplicates. */
  lemma PermutationOfAscendingIsDistinct(a: seq<nat>, b: seq<nat>)
    requires forall i, j :: 0 <= i < j < |b| ==> b[i] < b[j]
    requires multiset(a) == multiset(b)
    ensures Distinct(a)
  {
    forall i, j | 0 <= i < j < |a| ensures a[i] != a[j] {
      if a[i] == a[j] {
        TwiceCounted(a, i, j);
        AscendingOnce(b, a[i]);
      }
    }
  }

  /** A message's `created_at`, or 0 for an id with no message. */
  function Stamp(db: Db, id: int): Time {
    if MessageExists(db, id) then MessageOf(db, id).createdAt else 0
  }

  predicate NewestFirst(db: Db, s: seq<nat>) {
    forall i, j :: 0 <= i < j < |s| ==> Stamp(db, s[i]) >= Stamp(db, s[j])
  }

  /** Inserting one id into a newest-first sequence. */
  function InsertNewest(db: Db, id: nat, s: seq<nat>): (r: seq<nat>)
    requires NewestFirst(db, s)
    ensures NewestFirst(db, r)
    ensures multiset(r) == multiset(s) + multiset{id}
    decreases |s|
  {
    if s == [] then [id]
    else if Stamp(db, id) >= Stamp(db, s[0]) then
      ConsNewest(db, id, s);
      [id] + s
    else
      var t := s[1..];
      TailNewest(db, s);
      var rest := InsertNewest(db, id, t);
      HeadStaysNewest(db, s[0], id, t, rest);
      ConsNewest(db, s[0], rest);
      [s[0]] + rest
  }

  /** The tail of a newest-first sequence is newest first, below its head. */
  lemma TailNewest(db: Db, s: seq<nat>)
    requires s != [] && NewestFirst(db, s)
    ensures s == [s[0]] + s[1..] && NewestFirst(db, s[1..])
    ensures forall k :: 0 <= k < |s[1..]| ==> Stamp(db, s[0]) >= Stamp(db, s[1..][k])
  {
    assert forall k :: 0 <= k < |s[1..]| ==> s[1..][k] == s[k + 1];
  }

  /** An id no older than the head of a newest-first sequence can go in front. */
  lemma ConsNewest(db: Db, x: nat, s: seq<nat>)
    requires NewestFirst(db, s) && (s != [] ==> Stamp(db, x) >= Stamp(db, s[0]))
    ensures NewestFirst(db, [x] + s)
  {
    var r := [x] + s;
    forall i, j | 0 <= i < j < |r| ensures Stamp(db, r[i]) >= Stamp(db, r[j]) {
      assert r[j] == s[j - 1];
      if i > 0 {
        assert r[i] == s[i - 1];
      }
    }
  }

  /** A stamp at least that of `id` and of every element of `t` is at least
      that of every element of a rearrangement of `t` with `id` added. */
  lemma HeadStaysNewest(db: Db, x: nat, id: nat, t: seq<nat>, rest: seq<nat>)
    requires Stamp(db, x) >= Stamp(db, id)
    requires forall k :: 0 <= k < |t| ==> Stamp(db, x) >= Stamp(db, t[k])
    requires multiset(rest) == multiset(t) + multiset{id}
    ensures forall j :: 0 <= j < |rest| ==> Stamp(db, x) >= Stamp(db, rest[j])
  {
    forall j | 0 <= j < |rest| ensures Stamp(db, x) >= Stamp(db, rest[j]) {
      assert rest[j] in multiset(rest);
      if rest[j] != id {
        assert rest[j] in multiset(t);
        var k :| 0 <= k < |t| && t[k] == rest[j];
      }
    }
  }

  /** `order_by('-created_at')`, as an insertion sort. */
  function SortNewest(db: Db, s: seq<nat>): (r: seq<nat>)
    ensures NewestFirst(db, r)
    ensures multiset(r) == multiset(s)
    decreases |s|
  {
    if s == [] then []
    else
      assert s == [s[0]] + s[1..];
      InsertNewest(db, s[0], SortNewest(db, s[1..]))
  }

  // ------------------------------------------------------------ history

  /** The history filter: a message of chat `c`, the requester a member of
      `c`, and not soft-deleted. */
  predicate InHistory(db: Db, u: UserId, c: int, id: int) {
    MessageExists(db, id) && MessageOf(db, id).chat == c && IsMember(db, c, u) && !MessageOf(db, id).isDeleted
  }

  /** `MessageViewSet.get_queryset`: nothing without a `chat` parameter;
      otherwise exactly the messages that pass the history filter, each once,
      newest first. */
  function History(db: Db, u: UserId, chat: Option<int>): (r: seq<nat>)
    ensures chat.None? ==> r == []
    ensures forall id :: id in r <==> chat.Some? && InHistory(db, u, chat.value, id)
    ensures Distinct(r)
    ensures NewestFirst(db, r)
  {
    if chat.None? then []
    else
      var ids := Select(|db.messages|, id => InHistory(db, u, chat.value, id));
      SortKeepsIds(db, ids);
      SortNewest(db, ids)
  }

  /** Sorting an ascending id list keeps exactly its ids, each once. */
  lemma SortKeepsIds(db: Db, ids: seq<nat>)
    requires forall i, j :: 0 <= i < j < |ids| ==> ids[i] < ids[j]
    ensures forall id :: id in SortNewest(db, ids) <==> id in ids
    ensures Distinct(SortNewest(db, ids))
  {
    var r := SortNewest(db, ids);
    forall id ensures id in r <==> id in ids {
      assert id in r <==> id in multiset(r);
      assert id in ids <==> id in multiset(ids);
    }
    PermutationOfAscendingIsDistinct(r, ids);
  }

  /** A non-member's history of a chat is empty. */
  lemma HistoryNeedsMembership(db: Db, u: UserId, c: int)
    requires !IsMember(db, c, u)
    ensures History(db, u, Some(c)) == []
  {
    FirstElement(History(db, u, Some(c)));
  }

  lemma FirstElement(s: seq<nat>)
    ensures s == [] || s[0] in s
  {
  }

  /** `get_object` for update and destroy: the id must be in the history query. */
  function Lookup(db: Db, u: UserId, chat: Option<int>, id: int): (r: Option<MessageId>)
    ensures r.Some? <==> chat.Some? && InHistory(db, u, chat.value, id)
    ensures r.Some? ==> r.value == id && MessageExists(db, id)
  {
    if chat.Some? && InHistory(db, u, chat.value, id) then Some(id) else None
  }

  /** The lookup finds exactly the messages the history query lists. */
  lemma LookupIsHistory(db: Db, u: UserId, chat: Option<int>, id: int)
    ensures Lookup(db, u, chat, id).Some? <==> id in History(db, u, chat)
  {
  }

  // ------------------------------------------------------------ create, update, destroy

  /** The writable fields of a message, as the serializer receives them. */
  datatype MessageField = ChatField | TextField | ForwardedFromField

  datatype CreateMessageRequest = CreateMessageRequest(chat: Option<int>, text: Option<string>, forwardedFrom: Option<int>)

  /** The serializer's validation errors: `chat` is required and must name a
      chat; `text` is required, not blank once trimmed and free of U+0000; `forwarded_from` may
      be absent but must otherwise name a message. */
  function CreateErrors(db: Db, req: CreateMessageRequest): (errors: set<MessageField>)
    ensures ChatField in errors <==> !(req.chat.Some? && ChatExists(db, req.chat.value))
    ensures TextField in errors <==> !(req.text.Some? && Text.CharFieldAccepts(req.text.value))
    ensures ForwardedFromField in errors <==> (req.forwardedFrom.Some? && !MessageExists(db, req.forwardedFrom.value))
  {
    var byChat: set<MessageField> := if req.chat.Some? && ChatExists(db, req.chat.value) then {} else {ChatField};
    var byText: set<MessageField> := if req.text.Some? && Text.CharFieldAccepts(req.text.value) then {} else {TextField};
    var byOrigin: set<MessageField> :=
      if req.forwardedFrom.Some? && !MessageExists(db, req.forwardedFrom.value) then {ForwardedFromField} else {};
    byChat + byText + byOrigin
  }

  /** A `text` containing U+0000 is refused on create and on update. */
  lemma NullCharacterInTextRefused(db: Db, req: CreateMessageRequest, u: UserId, chat: Option<int>, id: int, now: Time)
    requires req.text.Some? && '\0' in req.text.value
    ensures TextField in CreateErrors(db, req)
    ensures var r := UpdateStep(db, u, chat, id, req.text, now);
      r.db == db && r.reply != MessageUpdated
  {
    var k :| 0 <= k < |req.text.value| && req.text.value[k] == '\0';
    Text.StripKeeps(req.text.value, k);
  }

  datatype MessageReply =
    | MessageCreated(id: MessageId)
    | MessageUpdated
    | MessageDestroyed
    | MessageInvalid(errors: set<MessageField>)   // 400
    | MessageNotFound                             // 404

  datatype MessageOutcome = MessageOutcome(db: Db, reply: MessageReply)

  /** The row the serializer saves: trimmed text, the requester as sender. */
  function CreatedRow(req: CreateMessageRequest, u: UserId, now: Time): Message
    requires req.chat.Some? && req.chat.value >= 0 && req.text.Some?
    requires req.forwardedFrom.Some? ==> req.forwardedFrom.value >= 0
  {
    var ff: Option<MessageId> := if req.forwardedFrom.Some? then Some(req.forwardedFrom.value as nat) else None;
    NewMessage(req.chat.value as nat, u, Text.Strip(req.text.value), ff, None, now)
  }

  /** `perform_create`: the insert, then one delivered status per member other than the sender. */
  function CreateStep(db: Db, u: UserId, req: CreateMessageRequest, now: Time): MessageOutcome
    requires UserExists(db, u)
  {
    var errors := CreateErrors(db, req);
    if errors != {} then MessageOutcome(db, MessageInvalid(errors))
    else
      var db1 := db.(messages := db.messages + [CreatedRow(req, u, now)]);
      var mid := |db1.messages|;
      MessageOutcome(db1.(statuses := db1.statuses + DeliveredRows(mid, Recipients(db1, mid), now)), MessageCreated(mid))
  }

  /** A valid create stores one message sent by the requester with the trimmed
      text in the named chat (membership is not checked), and one delivered
      status for every member of that chat except the sender; an invalid one
      changes nothing. */
  lemma CreateEffects(db: Db, u: UserId, req: CreateMessageRequest, now: Time)
    requires Valid(db) && UserExists(db, u)
    ensures var r := CreateStep(db, u, req, now);
      && (CreateErrors(db, req) != {} ==> r == MessageOutcome(db, MessageInvalid(CreateErrors(db, req))))
      && (CreateErrors(db, req) == {} ==>
            var mid := |db.messages| + 1;
            && r.reply == MessageCreated(mid)
            && r.db.messages == db.messages + [CreatedRow(req, u, now)]
            && MessageOf(r.db, mid).sender == u && MessageOf(r.db, mid).text == Text.Strip(req.text.value)
            && (forall v :: StatusKey(mid, v) in r.db.statuses <==> v in ChatOf(db, req.chat.value).members && v != u)
            && (forall v :: StatusKey(mid, v) in r.db.statuses ==> r.db.statuses[StatusKey(mid, v)] == DeliveredStatus(now))
            && (forall k :: k in db.statuses ==> k in r.db.statuses && r.db.statuses[k] == db.statuses[k])
            && (forall k :: k in r.db.statuses && k.message != mid ==> k in db.statuses)
            && r.db == db.(messages := r.db.messages, statuses := r.db.statuses))
  {
    if CreateErrors(db, req) == {} {
      var mid := |db.messages| + 1;
      forall k | k in db.statuses ensures k.message != mid {
        assert StatusOk(db, k, db.statuses[k]);
      }
    }
  }

  lemma CreateValid(db: Db, u: UserId, req: CreateMessageRequest, now: Time)
    requires Valid(db) && UserExists(db, u)
    ensures Valid(CreateStep(db, u, req, now).db)
  {
    if CreateErrors(db, req) == {} {
      var m := CreatedRow(req, u, now);
      AddMessageValid(db, m);
      AddDeliveredValid(db.(messages := db.messages + [m]), |db.messages| + 1, now);
    }
  }

  /** `perform_update` of a PATCH carrying at most a new text: the message must
      be found through the history query; a given text must not be blank. The
      row is flagged edited with the time; the sender is not checked. */
  function UpdateStep(db: Db, u: UserId, chat: Option<int>, id: int, text: Option<string>, now: Time): MessageOutcome {
    var found := Lookup(db, u, chat, id);
    if found.None? then MessageOutcome(db, MessageNotFound)
    else if text.Some? && !Text.CharFieldAccepts(text.value) then MessageOutcome(db, MessageInvalid({TextField}))
    else
      var m := MessageOf(db, found.value);
      var t := if text.Some? then Text.Strip(text.value) else m.text;
      MessageOutcome(db.(messages := db.messages[found.value - 1 := Edited(m, t, now)]), MessageUpdated)
  }

  /** `perform_destroy`: a tombstone on a message found through the history query. */
  function DestroyStep(db: Db, u: UserId, chat: Option<int>, id: int): MessageOutcome {
    var found := Lookup(db, u, chat, id);
    if found.None? then MessageOutcome(db, MessageNotFound)
    else MessageOutcome(db.(messages := db.messages[found.value - 1 := Tombstoned(MessageOf(db, found.value))]), MessageDestroyed)
  }

  /** Update flags the found message edited at `now`, with the trimmed text
      when one is given, and changes no other message. */
  lemma UpdateEffects(db: Db, u: UserId, c: int, id: int, text: Option<string>, now: Time)
    requires InHistory(db, u, c, id)
    requires text.None? || Text.CharFieldAccepts(text.value)
    ensures var r := UpdateStep(db, u, Some(c), id, text, now);
      && r.reply == MessageUpdated && |r.db.messages| == |db.messages|
      && MessageOf(r.db, id).isEdited && MessageOf(r.db, id).editedAt == Some(now)
      && MessageOf(r.db, id).text == (if text.Some? then Text.Strip(text.value) else MessageOf(db, id).text)
      && (forall i :: 0 <= i < |db.messages| && i != id - 1 ==> r.db.messages[i] == db.messages[i])
  {
    UpdateWritesRow(db, u, Some(c), id, text, now);
  }

  /** Destroy keeps the row, flagged deleted with the placeholder text, and
      changes no other message; the message then drops out of the history. */
  lemma DestroyEffects(db: Db, u: UserId, c: int, id: int)
    requires InHistory(db, u, c, id)
    ensures var r := DestroyStep(db, u, Some(c), id);
      && r.reply == MessageDestroyed && |r.db.messages| == |db.messages|
      && MessageOf(r.db, id).isDeleted && MessageOf(r.db, id).text == DELETED_TEXT
      && (forall i :: 0 <= i < |db.messages| && i != id - 1 ==> r.db.messages[i] == db.messages[i])
      && id !in History(r.db, u, Some(c))
  {
    DestroyWritesRow(db, u, Some(c), id);
  }

  /** A message that is not in the history query cannot be updated or destroyed. */
  lemma UpdateDestroyNeedLookup(db: Db, u: UserId, chat: Option<int>, id: int, text: Option<string>, now: Time)
    requires id !in History(db, u, chat)
    ensures UpdateStep(db, u, chat, id, text, now) == MessageOutcome(db, MessageNotFound)
    ensures DestroyStep(db, u, chat, id) == MessageOutcome(db, MessageNotFound)
  {
    LookupIsHistory(db, u, chat, id);
  }

  /** The edit `UpdateStep` makes when the message is found and the text is
      not blank. */
  lemma UpdateWritesRow(db: Db, u: UserId, chat: Option<int>, id: int, text: Option<string>, now: Time)
    requires Lookup(db, u, chat, id).Some? && !(text.Some? && !Text.CharFieldAccepts(text.value))
    ensures var m := MessageOf(db, id);
      UpdateStep(db, u, chat, id, text, now)
        == MessageOutcome(db.(messages := db.messages[id - 1 := Edited(m, if text.Some? then Text.Strip(text.value) else m.text, now)]), MessageUpdated)
  {
  }

  lemma UpdateValid(db: Db, u: UserId, chat: Option<int>, id: int, text: Option<string>, now: Time)
    requires Valid(db)
    ensures Valid(UpdateStep(db, u, chat, id, text, now).db)
  {
    if Lookup(db, u, chat, id).Some? && !(text.Some? && !Text.CharFieldAccepts(text.value)) {
      var m := MessageOf(db, id);
      UpdateWritesRow(db, u, chat, id, text, now);
      EditRowValid(db, id, if text.Some? then Text.Strip(text.value) else m.text, now);
    }
  }

  /** The tombstone `DestroyStep` writes when the message is found. */
  lemma DestroyWritesRow(db: Db, u: UserId, chat: Option<int>, id: int)
    requires Lookup(db, u, chat, id).Some?
    ensures DestroyStep(db, u, chat, id) == MessageOutcome(db.(messages := db.messages[id - 1 := Tombstoned(MessageOf(db, id))]), MessageDestroyed)
  {
  }

  lemma DestroyValid(db: Db, u: UserId, chat: Option<int>, id: int)
    requires Valid(db)
    ensures Valid(DestroyStep(db, u, chat, id).db)
  {
    if Lookup(db, u, chat, id).Some? {
      DestroyWritesRow(db, u, chat, id);
      DeleteRowValid(db, id);
    }
  }

  // ------------------------------------------------------------ search and pins

  /** The search filter: in a chat of the requester, containing the query
      case-insensitively, and not soft-deleted. */
  predicate SearchMatch(db: Db, u: UserId, q: string, id: int) {
    && MessageExists(db, id) && IsMember(db, MessageOf(db, id).chat, u)
    && Text.IContains(MessageOf(db, id).text, q) && !MessageOf(db, id).isDeleted
  }

  const SEARCH_LIMIT: nat := 50

  /** `MessageViewSet.search`: the query defaults to the empty string; at most
      50 matches, taken in id order. */
  function Search(db: Db, u: UserId, q: Option<string>): (r: seq<nat>)
    ensures |r| <= SEARCH_LIMIT
    ensures forall id :: id in r ==> SearchMatch(db, u, q.GetOr(""), id)
    ensures forall i, j :: 0 <= i < j < |r| ==> r[i] < r[j]
    ensures |r| < SEARCH_LIMIT ==> forall id :: SearchMatch(db, u, q.GetOr(""), id) ==> id in r
    ensures forall id :: SearchMatch(db, u, q.GetOr(""), id) && r != [] && id < r[|r| - 1] ==> id in r
  {
    var query := q.GetOr("");
    var all := Select(|db.messages|, id => SearchMatch(db, u, query, id));
    var r := Cap(all, SEARCH_LIMIT);
    r
  }

  /** The first `n` elements of an ascending sequence, as a slice
      `[:n]` takes them. */
  function Cap(all: seq<nat>, n: nat): (r: seq<nat>)
    requires forall i, j :: 0 <= i < j < |all| ==> all[i] < all[j]
    ensures |r| <= n && (|all| <= n ==> r == all)
    ensures forall x :: x in r ==> x in all
    ensures forall i, j :: 0 <= i < j < |r| ==> r[i] < r[j]
    ensures forall x :: x in all && r != [] && x < r[|r| - 1] ==> x in r
  {
    if |all| <= n then all
    else
      var r := all[..n];
      forall x | x in all && r != [] && x < r[|r| - 1] ensures x in r {
        var k :| 0 <= k < |all| && all[k] == x;
        assert r[k] == x;
      }
      r
  }

  /** Without a query every non-deleted message of the requester's chats matches. */
  lemma EmptyQueryMatchesAll(db: Db, u: UserId, id: int)
    requires MessageExists(db, id) && IsMember(db, MessageOf(db, id).chat, u) && !MessageOf(db, id).isDeleted
    ensures SearchMatch(db, u, "", id)
  {
    Text.ContainsEmpty(Text.Lower(MessageOf(db, id).text));
    assert Text.Lower("") == [];
  }

  /** The pinned listing filter: pins of the requester's chats, restricted to
      one chat when the `chat` parameter is given. */
  predicate PinListed(db: Db, u: UserId, chat: Option<int>, id: int) {
    && 1 <= id <= |db.pins| && IsMember(db, db.pins[id - 1].chat, u)
    && (chat.Some? ==> db.pins[id - 1].chat == chat.value)
  }

  /** `PinnedMessageViewSet.get_queryset`. */
  function PinnedList(db: Db, u: UserId, chat: Option<int>): (r: seq<nat>)
    ensures forall id :: id in r <==> PinListed(db, u, chat, id)
    ensures forall i, j :: 0 <= i < j < |r| ==> r[i] < r[j]
  {
    Select(|db.pins|, id => PinListed(db, u, chat, id))
  }

  // ------------------------------------------------------------ the handlers

  /** `perform_create` on the store. */
  method Create(store: Store, u: UserId, req: CreateMessageRequest, now: Time) returns (reply: MessageReply)
    requires store.Valid() && UserExists(store.Snapshot(), u)
    modifies store`messages, store`statuses
    ensures store.Valid()
    ensures MessageOutcome(store.Snapshot(), reply) == CreateStep(old(store.Snapshot()), u, req, now)
  {
    var errors := CreateErrors(store.Snapshot(), req);
    if errors != {} {
      return MessageInvalid(errors);
    }
    var row := CreatedRow(req, u, now);
    var mid := store.CreateMessage(row.chat, u, row.text, row.forwardedFrom, None, now);
    store.CreateDeliveredStatuses(mid, now);
    reply := MessageCreated(mid);
  }

  /** `perform_update` on the store. */
  method Update(store: Store, u: UserId, chat: Option<int>, id: int, text: Option<string>, now: Time) returns (reply: MessageReply)
    requires store.Valid()
    modifies store`messages
    ensures store.Valid()
    ensures MessageOutcome(store.Snapshot(), reply) == UpdateStep(old(store.Snapshot()), u, chat, id, text, now)
  {
    ghost var db0 := store.Snapshot();
    var found := Lookup(store.Snapshot(), u, chat, id);
    if found.None? {
      assert UpdateStep(db0, u, chat, id, text, now) == MessageOutcome(db0, MessageNotFound);
      return MessageNotFound;
    }
    if text.Some? && !Text.CharFieldAccepts(text.value) {
      assert UpdateStep(db0, u, chat, id, text, now) == MessageOutcome(db0, MessageInvalid({TextField}));
      return MessageInvalid({TextField});
    }
    assert found.value == id;
    var m := store.messages[id - 1];
    assert m == MessageOf(db0, id);
    var t := if text.Some? then Text.Strip(text.value) else m.text;
    MutationsKeepIdentity(m, t, now);
    UpdateWritesRow(db0, u, chat, id, text, now);
    store.WriteMessage(id, Edited(m, t, now));
    reply := MessageUpdated;
  }

  /** `perform_destroy` on the store. */
  method Destroy(store: Store, u: UserId, chat: Option<int>, id: int) returns (reply: MessageReply)
    requires store.Valid()
    modifies store`messages
    ensures store.Valid()
    ensures MessageOutcome(store.Snapshot(), reply) == DestroyStep(old(store.Snapshot()), u, chat, id)
  {
    ghost var db0 := store.Snapshot();
    var found := Lookup(store.Snapshot(), u, chat, id);
    if found.None? {
      return MessageNotFound;
    }
    var m := store.messages[found.value - 1];
    assert m == MessageOf(db0, found.value);
    store.WriteMessage(found.value, Tombstoned(m));
    DestroyWritesRow(db0, u, chat, id);
    reply := MessageDestroyed;
  }
}
