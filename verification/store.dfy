/** The persisted state the handlers read and write: users, messages and channels.
    Each collection is a sequence in insertion order. */
module Store {
  import opened Base
  import opened UserModel

  /** A stored message. Direct messages have a recipient; channel messages
      are stored with `recipient: null`. */
  datatype Message = Message(
    id: MessageId,
    sender: UserId,
    recipient: Option<UserId>,
    content: Option<string>,
    messageType: string,
    timestamp: int,
    fileUrl: Option<string>)

  /** A stored channel: one admin, the members given at creation, and the ids
      of its messages in the order they were pushed. */
  datatype Channel = Channel(
    id: ChannelId,
    name: string,
    members: seq<UserId>,
    admin: UserId,
    messages: seq<MessageId>,
    updatedAt: int)

  datatype Db = Db(users: seq<User>, messages: seq<Message>, channels: seq<Channel>)

  function TimestampOf(m: Message): int { m.timestamp }
  function UpdatedAtOf(c: Channel): int { c.updatedAt }

  /** `Message.findById`. */
  function FindMessage(messages: seq<Message>, id: MessageId): (r: Option<Message>)
    ensures r.None? <==> forall i :: 0 <= i < |messages| ==> messages[i].id != id
    ensures r.Some? ==> r.value in messages && r.value.id == id
  {
    if |messages| == 0 then None
    else if messages[0].id == id then Some(messages[0])
    else FindMessage(messages[1..], id)
  }

  /** `Channel.findById`. */
  function FindChannel(channels: seq<Channel>, id: ChannelId): (r: Option<Channel>)
    ensures r.None? <==> forall i :: 0 <= i < |channels| ==> channels[i].id != id
    ensures r.Some? ==> r.value in channels && r.value.id == id
  {
    if |channels| == 0 then None
    else if channels[0].id == id then Some(channels[0])
    else FindChannel(channels[1..], id)
  }

  /** `findByIdAndUpdate(id, { $push: { messages: m } })`: appends `m` to the
      message list of the channel with id `id`; no-op when there is none. */
  function PushMessage(channels: seq<Channel>, id: ChannelId, m: MessageId): (r: seq<Channel>)
    ensures |r| == |channels|
    ensures forall i :: 0 <= i < |channels| ==>
      r[i] == if channels[i].id == id then channels[i].(messages := channels[i].messages + [m]) else channels[i]
  {
    seq(|channels|, i requires 0 <= i < |channels| =>
      if channels[i].id == id then channels[i].(messages := channels[i].messages + [m]) else channels[i])
  }

  /** After a push, the channel found by id is the one found before, with `m` appended. */
  lemma {:induction false} FindChannelAfterPush(channels: seq<Channel>, id: ChannelId, m: MessageId)
    ensures FindChannel(PushMessage(channels, id, m), id) ==
      match FindChannel(channels, id)
      case None => None
      case Some(c) => Some(c.(messages := c.messages + [m]))
  {
    if |channels| > 0 && channels[0].id != id {
      FindChannelAfterPush(channels[1..], id, m);
      assert PushMessage(channels, id, m)[1..] == PushMessage(channels[1..], id, m);
    }
  }

  /** A push leaves every other channel as it was found. */
  lemma {:induction false} FindOtherChannelAfterPush(channels: seq<Channel>, id: ChannelId, m: MessageId, k: ChannelId)
    requires k != id
    ensures FindChannel(PushMessage(channels, id, m), k) == FindChannel(channels, k)
  {
    if |channels| > 0 && channels[0].id != k {
      FindOtherChannelAfterPush(channels[1..], id, m, k);
      assert PushMessage(channels, id, m)[1..] == PushMessage(channels[1..], id, m);
    }
  }

  /** Appending a record with a new id does not change what earlier ids find. */
  lemma {:induction false} FindMessageAfterAppend(messages: seq<Message>, m: Message, id: MessageId)
    requires FindMessage(messages, m.id).None?
    ensures FindMessage(messages + [m], id) == if id == m.id then Some(m) else FindMessage(messages, id)
  {
    if |messages| > 0 {
      assert (messages + [m])[1..] == messages[1..] + [m];
      FindMessageAfterAppend(messages[1..], m, id);
    }
  }
}
