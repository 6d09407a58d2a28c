/** The channel layer the consumer talks to: named groups of connections, and
    `group_send`, modelled as appending the event, together with the
    connections subscribed at that moment, to an outbox. */
module Channels {
  import opened Common

  /** The events the consumer publishes with `group_send`. A key that the
      publisher leaves out of the event dictionary is `None`. */
  datatype GroupEvent =
    | ChatMessage(messageId: MessageId, text: string, sender: string, senderId: UserId,
                  forwarded: Option<bool>, forwardedFrom: Option<string>, createdAt: Time)
    | TypingEvent(userId: UserId, username: string, isTyping: bool)
    | ReadUpdate(userId: UserId, lastReadMessageId: int)
    | MessageEdit(editedId: Option<int>, newText: Option<string>)
    | MessageDelete(deletedId: Option<int>)
    | UserStatusEvent(userId: UserId, isOnline: bool)

  /** One `group_send`: the group, the connections subscribed when it was
      called (they are the ones it reaches), and the event. */
  datatype Send = Send(group: string, recipients: set<ChannelName>, event: GroupEvent)

  function SubscribersIn(groups: map<string, set<ChannelName>>, g: string): set<ChannelName> {
    if g in groups then groups[g] else {}
  }

  /** `group_add`. */
  function Added(groups: map<string, set<ChannelName>>, g: string, c: ChannelName): (r: map<string, set<ChannelName>>)
    ensures SubscribersIn(r, g) == SubscribersIn(groups, g) + {c}
    ensures forall h :: h != g ==> SubscribersIn(r, h) == SubscribersIn(groups, h)
  {
    groups[g := SubscribersIn(groups, g) + {c}]
  }

  /** `group_discard`; discarding a connection that is not there changes nothing. */
  function Discarded(groups: map<string, set<ChannelName>>, g: string, c: ChannelName): (r: map<string, set<ChannelName>>)
    ensures SubscribersIn(r, g) == SubscribersIn(groups, g) - {c}
    ensures forall h :: h != g ==> SubscribersIn(r, h) == SubscribersIn(groups, h)
    ensures c !in SubscribersIn(groups, g) ==> SubscribersIn(r, g) == SubscribersIn(groups, g)
  {
    if g in groups then groups[g := groups[g] - {c}] else groups
  }

  /** Joining and then leaving restores the subscriptions of a connection that
      was not subscribed before. */
  lemma AddThenDiscard(groups: map<string, set<ChannelName>>, g: string, c: ChannelName)
    requires c !in SubscribersIn(groups, g)
    ensures forall h :: SubscribersIn(Discarded(Added(groups, g, c), g, c), h) == SubscribersIn(groups, h)
  {
  }

  class ChannelLayer {
    var groups: map<string, set<ChannelName>>
    var outbox: seq<Send>

    constructor ()
      ensures groups == map[] && outbox == []
    {
      groups, outbox := map[], [];
    }

    method GroupAdd(g: string, c: ChannelName)
      modifies this`groups
      ensures groups == Added(old(groups), g, c)
    {
      groups := Added(groups, g, c);
    }

    method GroupDiscard(g: string, c: ChannelName)
      modifies this`groups
      ensures groups == Discarded(old(groups), g, c)
    {
      groups := Discarded(groups, g, c);
    }

    method GroupSend(g: string, ev: GroupEvent)
      modifies this`outbox
      ensures outbox == old(outbox) + [Send(g, SubscribersIn(groups, g), ev)]
    {
      outbox := outbox + [Send(g, SubscribersIn(groups, g), ev)];
    }
  }
}
