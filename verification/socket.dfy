/** The send handlers of `socket.js`: persist a message, then emit it to the
    sockets of the users it concerns. Emission is returned as a trace in the
    order the handler calls `io.to(socketId).emit(...)`; nothing de-duplicates it. */
module Socket {
  import opened Base
  import opened UserModel
  import opened Store
  import opened Presence
  import Seqs

  const ReceiveMessage := "receiveMessage"
  const ReceiveChannelMessage := "receive-channel-message"

  /** What is emitted: the stored message, plus the channel id for channel messages. */
  datatype Payload = DirectPayload(message: Message) | ChannelPayload(message: Message, channelId: ChannelId)

  datatype Emission = Emission(socket: SocketId, event: string, payload: Payload)

  /** The body of a `sendMessage` event. */
  datatype DirectInput = DirectInput(
    sender: UserId, recipient: UserId, content: Option<string>, messageType: string, fileUrl: Option<string>)

  /** The body of a `send-channel-message` event. */
  datatype ChannelInput = ChannelInput(
    channelId: ChannelId, sender: UserId, content: Option<string>, messageType: string, fileUrl: Option<string>)

  /** The state after a handler ran, and what it emitted. */
  datatype Outcome = Outcome(db: Db, trace: seq<Emission>)

  /** One emission to the user's socket if the user is online, none otherwise. */
  function EmitIfOnline(reg: Registry, u: UserId, event: string, payload: Payload): (t: seq<Emission>)
    ensures Lookup(reg, u).None? ==> t == []
    ensures Lookup(reg, u).Some? ==> t == [Emission(Lookup(reg, u).value, event, payload)]
  {
    match Lookup(reg, u)
    case None => []
    case Some(s) => [Emission(s, event, payload)]
  }

  /** Emits to each target in turn, skipping those that are offline. */
  function FanOut(reg: Registry, targets: seq<UserId>, event: string, payload: Payload): (t: seq<Emission>)
    ensures |t| <= |targets|
  {
    if |targets| == 0 then []
    else EmitIfOnline(reg, targets[0], event, payload) + FanOut(reg, targets[1..], event, payload)
  }

  /** Every emission of a fan-out carries its event and payload and goes to
      the socket of one of the targets. */
  lemma {:induction false} FanOutEmissions(reg: Registry, targets: seq<UserId>, event: string, payload: Payload)
    ensures forall e :: e in FanOut(reg, targets, event, payload) ==>
      e.event == event && e.payload == payload && exists u :: u in targets && Lookup(reg, u) == Some(e.socket)
  {
    if |targets| > 0 {
      FanOutEmissions(reg, targets[1..], event, payload);
      forall e | e in FanOut(reg, targets, event, payload)
        ensures e.event == event && e.payload == payload && exists u :: u in targets && Lookup(reg, u) == Some(e.socket)
      {
        if e in EmitIfOnline(reg, targets[0], event, payload) {
          assert Lookup(reg, targets[0]) == Some(e.socket);
        } else {
          var u :| u in targets[1..] && Lookup(reg, u) == Some(e.socket);
          assert u in targets;
        }
      }
    }
  }

  /** Every target that is online gets an emission. */
  lemma {:induction false} FanOutReachesOnline(reg: Registry, targets: seq<UserId>, event: string, payload: Payload, u: UserId)
    requires u in targets && Lookup(reg, u).Some?
    ensures Emission(Lookup(reg, u).value, event, payload) in FanOut(reg, targets, event, payload)
  {
    if targets[0] != u {
      FanOutReachesOnline(reg, targets[1..], event, payload, u);
    }
  }

  /** How many emissions of a trace go to socket `s`. */
  function EmissionsTo(t: seq<Emission>, s: SocketId): nat
  {
    if |t| == 0 then 0 else (if t[0].socket == s then 1 else 0) + EmissionsTo(t[1..], s)
  }

  /** How many of the targets are online on socket `s`, counting repeats. */
  function TargetsOn(reg: Registry, targets: seq<UserId>, s: SocketId): nat
  {
    if |targets| == 0 then 0
    else (if Lookup(reg, targets[0]) == Some(s) then 1 else 0) + TargetsOn(reg, targets[1..], s)
  }

  lemma {:induction false} EmissionsToConcat(a: seq<Emission>, b: seq<Emission>, s: SocketId)
    ensures EmissionsTo(a + b, s) == EmissionsTo(a, s) + EmissionsTo(b, s)
  {
    if |a| == 0 {
      assert a + b == b;
    } else {
      assert (a + b)[0] == a[0];
      assert (a + b)[1..] == a[1..] + b;
      EmissionsToConcat(a[1..], b, s);
    }
  }

  /** Fanning out over a concatenation emits to the first part, then to the second. */
  lemma {:induction false} FanOutConcat(reg: Registry, a: seq<UserId>, b: seq<UserId>, event: string, payload: Payload)
    ensures FanOut(reg, a + b, event, payload) == FanOut(reg, a, event, payload) + FanOut(reg, b, event, payload)
  {
    if |a| == 0 {
      assert a + b == b;
    } else {
      assert (a + b)[0] == a[0];
      assert (a + b)[1..] == a[1..] + b;
      FanOutConcat(reg, a[1..], b, event, payload);
    }
  }

  /** A socket gets one emission per target online on it: duplicates are not merged. */
  lemma {:induction false} FanOutMultiplicity(reg: Registry, targets: seq<UserId>, event: string, payload: Payload, s: SocketId)
    ensures EmissionsTo(FanOut(reg, targets, event, payload), s) == TargetsOn(reg, targets, s)
  {
    if |targets| > 0 {
      var head := EmitIfOnline(reg, targets[0], event, payload);
      FanOutMultiplicity(reg, targets[1..], event, payload, s);
      EmissionsToConcat(head, FanOut(reg, targets[1..], event, payload), s);
      assert EmissionsTo(head, s) == if Lookup(reg, targets[0]) == Some(s) then 1 else 0 by {
        if |head| > 0 { assert head[1..] == []; }
      }
    }
  }

  /** When every target is online, the i-th emission goes to the i-th target's socket. */
  lemma {:induction false} FanOutAllOnline(reg: Registry, targets: seq<UserId>, event: string, payload: Payload)
    requires forall i :: 0 <= i < |targets| ==> Lookup(reg, targets[i]).Some?
    ensures |FanOut(reg, targets, event, payload)| == |targets|
    ensures forall i :: 0 <= i < |targets| ==>
      FanOut(reg, targets, event, payload)[i] == Emission(Lookup(reg, targets[i]).value, event, payload)
  {
    if |targets| > 0 {
      FanOutAllOnline(reg, targets[1..], event, payload);
      var t := FanOut(reg, targets, event, payload);
      forall i | 1 <= i < |targets| ensures t[i] == Emission(Lookup(reg, targets[i]).value, event, payload) {
        assert targets[1..][i - 1] == targets[i];
      }
    }
  }

  /** Being online: having a socket in the registry. */
  function Online(reg: Registry): UserId -> bool
  {
    u => Lookup(reg, u).Some?
  }

  /** The targets that are online, in target order. */
  function OnlineTargets(reg: Registry, targets: seq<UserId>): (r: seq<UserId>)
    ensures forall u :: u in r <==> u in targets && Lookup(reg, u).Some?
    ensures forall i :: 0 <= i < |r| ==> Lookup(reg, r[i]).Some?
  {
    Seqs.Filter(targets, Online(reg))
  }

  /** Offline targets contribute nothing: fanning out to the targets is
      fanning out to the online ones among them. */
  lemma {:induction false} FanOutSkipsOffline(reg: Registry, targets: seq<UserId>, event: string, payload: Payload)
    ensures FanOut(reg, targets, event, payload) == FanOut(reg, OnlineTargets(reg, targets), event, payload)
  {
    if |targets| > 0 {
      var rest := targets[1..];
      FanOutSkipsOffline(reg, rest, event, payload);
      assert targets == [targets[0]] + rest;
      var head := if Lookup(reg, targets[0]).Some? then [targets[0]] else [];
      assert OnlineTargets(reg, targets) == head + OnlineTargets(reg, rest);
      FanOutConcat(reg, head, OnlineTargets(reg, rest), event, payload);
      if |head| == 1 {
        assert head[1..] == [];
      }
    }
  }

  /** The message `sendMessage` stores for a direct send. */
  function DirectRecord(m: DirectInput, id: MessageId, now: int): Message
  {
    Message(id, m.sender, Some(m.recipient), m.content, m.messageType, now, m.fileUrl)
  }

  /** `sendMessage`: read both sockets, persist the message, then emit
      `receiveMessage` to the recipient's socket and then to the sender's.
      A create that fails (the id is taken) persists nothing and emits nothing. */
  function SendMessage(reg: Registry, db: Db, m: DirectInput, id: MessageId, now: int): (o: Outcome)
    ensures FindMessage(db.messages, id).Some? ==> o == Outcome(db, [])
    ensures FindMessage(db.messages, id).None? ==>
      o.db == db.(messages := db.messages + [DirectRecord(m, id, now)])
    ensures forall e :: e in o.trace ==>
      e.event == ReceiveMessage && e.payload == DirectPayload(DirectRecord(m, id, now)) &&
      (Some(e.socket) == Lookup(reg, m.recipient) || Some(e.socket) == Lookup(reg, m.sender))
    ensures FindMessage(db.messages, id).None? ==>
      |o.trace| == (if Lookup(reg, m.recipient).Some? then 1 else 0) + (if Lookup(reg, m.sender).Some? then 1 else 0)
    ensures FindMessage(db.messages, id).None? && Lookup(reg, m.recipient).Some? ==>
      o.trace[0].socket == Lookup(reg, m.recipient).value
  {
    var senderSocket := Lookup(reg, m.sender);
    var recipientSocket := Lookup(reg, m.recipient);
    if FindMessage(db.messages, id).Some? then Outcome(db, [])
    else
      var stored := DirectRecord(m, id, now);
      var payload := DirectPayload(stored);
      var toRecipient := if recipientSocket.Some? then [Emission(recipientSocket.value, ReceiveMessage, payload)] else [];
      var toSender := if senderSocket.Some? then [Emission(senderSocket.value, ReceiveMessage, payload)] else [];
      Outcome(db.(messages := db.messages + [stored]), toRecipient + toSender)
  }

  /** Each socket gets one emission for the recipient and one for the sender
      when they are online on it. */
  lemma DirectSendMultiplicity(reg: Registry, db: Db, m: DirectInput, id: MessageId, now: int, s: SocketId)
    requires FindMessage(db.messages, id).None?
    ensures EmissionsTo(SendMessage(reg, db, m, id, now).trace, s) ==
      (if Lookup(reg, m.recipient) == Some(s) then 1 else 0) + (if Lookup(reg, m.sender) == Some(s) then 1 else 0)
  {
    var t := SendMessage(reg, db, m, id, now).trace;
    if |t| == 2 {
      assert t[1..][1..] == [];
    } else if |t| == 1 {
      assert t[1..] == [];
    }
  }

  /** A message a user sends to themselves while online reaches their socket twice. */
  lemma SelfMessageEmittedTwice(reg: Registry, db: Db, m: DirectInput, id: MessageId, now: int)
    requires FindMessage(db.messages, id).None?
    requires m.sender == m.recipient && Lookup(reg, m.sender).Some?
    ensures var t := SendMessage(reg, db, m, id, now).trace;
      |t| == 2 && t[0] == t[1] && t[0].socket == Lookup(reg, m.sender).value
  {
  }

  /** Having a user record. */
  function Known(users: seq<User>): UserId -> bool
  {
    u => FindById(users, u).Some?
  }

  /** The channel's members as `populate("members")` returns them: ids with
      no user record are dropped; `PopulatedMembersConcat` and
      `PopulatedMembersRepeats` show that order and repeats are kept. */
  function PopulatedMembers(users: seq<User>, members: seq<UserId>): (r: seq<UserId>)
    ensures forall u :: u in r <==> u in members && FindById(users, u).Some?
  {
    Seqs.Filter(members, Known(users))
  }

  /** Populating keeps the members in their list order. */
  lemma PopulatedMembersConcat(users: seq<User>, a: seq<UserId>, b: seq<UserId>)
    ensures PopulatedMembers(users, a + b) == PopulatedMembers(users, a) + PopulatedMembers(users, b)
  {
    Seqs.FilterConcat(a, b, Known(users));
  }

  /** A known member listed several times stays listed that many times. */
  lemma PopulatedMembersRepeats(users: seq<User>, members: seq<UserId>, u: UserId)
    ensures multiset(PopulatedMembers(users, members))[u] ==
      if FindById(users, u).Some? then multiset(members)[u] else 0
  {
    Seqs.FilterMultiset(members, Known(users), u);
  }

  /** Populating keeps every member when all of them are known users. */
  lemma {:induction false} PopulatedMembersAllKnown(users: seq<User>, members: seq<UserId>)
    requires forall i :: 0 <= i < |members| ==> FindById(users, members[i]).Some?
    ensures PopulatedMembers(users, members) == members
  {
    if |members| > 0 {
      PopulatedMembersAllKnown(users, members[1..]);
    }
  }

  /** The message `sendChannelMessage` stores: no recipient. */
  function ChannelRecord(m: ChannelInput, id: MessageId, now: int): (r: Message)
    ensures r.recipient.None? && r.id == id && r.sender == m.sender && r.timestamp == now
  {
    Message(id, m.sender, None, m.content, m.messageType, now, m.fileUrl)
  }

  /** `sendChannelMessage`: persist the message with `recipient: null`, push
      its id onto the channel, re-read the channel, and emit
      `receive-channel-message` to each online member in member order and then
      to the admin. An unknown channel makes `channel._id` throw after the
      message was stored, so nothing is emitted. */
  function SendChannelMessage(reg: Registry, db: Db, m: ChannelInput, id: MessageId, now: int): (o: Outcome)
    ensures FindMessage(db.messages, id).Some? ==> o == Outcome(db, [])
    ensures FindMessage(db.messages, id).None? ==>
      o.db == Db(db.users, db.messages + [ChannelRecord(m, id, now)], PushMessage(db.channels, m.channelId, id))
    ensures FindChannel(db.channels, m.channelId).None? ==> o.trace == [] && o.db.channels == db.channels
  {
    if FindMessage(db.messages, id).Some? then Outcome(db, [])
    else
      var stored := ChannelRecord(m, id, now);
      var db1 := Db(db.users, db.messages + [stored], PushMessage(db.channels, m.channelId, id));
      FindChannelAfterPush(db.channels, m.channelId, id);
      match FindChannel(db1.channels, m.channelId)
      case None => Outcome(db1, [])
      case Some(c) =>
        var payload := ChannelPayload(stored, c.id);
        var members := PopulatedMembers(db.users, c.members);
        Outcome(db1, FanOut(reg, members, ReceiveChannelMessage, payload) + FanOut(reg, [c.admin], ReceiveChannelMessage, payload))
  }

  /** For a known channel, each socket gets one emission per populated member
      online on it plus one if the admin is online on it, all carrying the
      stored message and the channel id. */
  lemma ChannelSendEmissions(reg: Registry, db: Db, m: ChannelInput, id: MessageId, now: int, s: SocketId)
    requires FindMessage(db.messages, id).None? && FindChannel(db.channels, m.channelId).Some?
    ensures var c := FindChannel(db.channels, m.channelId).value;
      var t := SendChannelMessage(reg, db, m, id, now).trace;
      && EmissionsTo(t, s) ==
           TargetsOn(reg, PopulatedMembers(db.users, c.members), s) + (if Lookup(reg, c.admin) == Some(s) then 1 else 0)
      && forall e :: e in t ==>
           e.event == ReceiveChannelMessage && e.payload == ChannelPayload(ChannelRecord(m, id, now), m.channelId)
  {
    var c := FindChannel(db.channels, m.channelId).value;
    FindChannelAfterPush(db.channels, m.channelId, id);
    var payload := ChannelPayload(ChannelRecord(m, id, now), c.id);
    var members := PopulatedMembers(db.users, c.members);
    var toMembers := FanOut(reg, members, ReceiveChannelMessage, payload);
    var toAdmin := FanOut(reg, [c.admin], ReceiveChannelMessage, payload);
    assert SendChannelMessage(reg, db, m, id, now).trace == toMembers + toAdmin;
    EmissionsToConcat(toMembers, toAdmin, s);
    FanOutMultiplicity(reg, members, ReceiveChannelMessage, payload, s);
    FanOutMultiplicity(reg, [c.admin], ReceiveChannelMessage, payload, s);
    FanOutEmissions(reg, members, ReceiveChannelMessage, payload);
    FanOutEmissions(reg, [c.admin], ReceiveChannelMessage, payload);
  }

  /** The order of a channel send: first the online populated members, in
      member order, then the admin if online. */
  lemma ChannelSendOrder(reg: Registry, db: Db, m: ChannelInput, id: MessageId, now: int)
    requires FindMessage(db.messages, id).None? && FindChannel(db.channels, m.channelId).Some?
    ensures var c := FindChannel(db.channels, m.channelId).value;
      var on := OnlineTargets(reg, PopulatedMembers(db.users, c.members));
      var t := SendChannelMessage(reg, db, m, id, now).trace;
      && |t| == |on| + (if Lookup(reg, c.admin).Some? then 1 else 0)
      && (forall i :: 0 <= i < |on| ==> t[i].socket == Lookup(reg, on[i]).value)
      && (Lookup(reg, c.admin).Some? ==> t[|on|].socket == Lookup(reg, c.admin).value)
  {
    var c := FindChannel(db.channels, m.channelId).value;
    FindChannelAfterPush(db.channels, m.channelId, id);
    var payload := ChannelPayload(ChannelRecord(m, id, now), c.id);
    var members := PopulatedMembers(db.users, c.members);
    var toMembers := FanOut(reg, members, ReceiveChannelMessage, payload);
    var toAdmin := FanOut(reg, [c.admin], ReceiveChannelMessage, payload);
    assert SendChannelMessage(reg, db, m, id, now).trace == toMembers + toAdmin;
    FanOutOnlineOrder(reg, members, ReceiveChannelMessage, payload);
    assert toAdmin == EmitIfOnline(reg, c.admin, ReceiveChannelMessage, payload) by {
      assert [c.admin][1..] == [];
    }
  }

  /** The i-th emission of a fan-out goes to the i-th online target. */
  lemma {:induction false} FanOutOnlineOrder(reg: Registry, targets: seq<UserId>, event: string, payload: Payload)
    ensures var on := OnlineTargets(reg, targets);
      var t := FanOut(reg, targets, event, payload);
      && |t| == |on|
      && forall i :: 0 <= i < |on| ==> t[i].socket == Lookup(reg, on[i]).value
  {
    FanOutSkipsOffline(reg, targets, event, payload);
    FanOutAllOnline(reg, OnlineTargets(reg, targets), event, payload);
  }

  /** With every member a known user and everyone online, the i-th emission
      goes to the i-th member and the last one to the admin. */
  lemma ChannelSendOrderAllOnline(reg: Registry, db: Db, m: ChannelInput, id: MessageId, now: int)
    requires FindMessage(db.messages, id).None? && FindChannel(db.channels, m.channelId).Some?
    requires var c := FindChannel(db.channels, m.channelId).value;
      && (forall i :: 0 <= i < |c.members| ==> FindById(db.users, c.members[i]).Some? && Lookup(reg, c.members[i]).Some?)
      && Lookup(reg, c.admin).Some?
    ensures var c := FindChannel(db.channels, m.channelId).value;
      var t := SendChannelMessage(reg, db, m, id, now).trace;
      && |t| == |c.members| + 1
      && (forall i :: 0 <= i < |c.members| ==> t[i].socket == Lookup(reg, c.members[i]).value)
      && t[|c.members|].socket == Lookup(reg, c.admin).value
  {
    var c := FindChannel(db.channels, m.channelId).value;
    PopulatedMembersAllKnown(db.users, c.members);
    OnlineTargetsAllOnline(reg, c.members);
    ChannelSendOrder(reg, db, m, id, now);
  }

  /** Nothing is dropped when every target is online. */
  lemma {:induction false} OnlineTargetsAllOnline(reg: Registry, targets: seq<UserId>)
    requires forall i :: 0 <= i < |targets| ==> Lookup(reg, targets[i]).Some?
    ensures OnlineTargets(reg, targets) == targets
  {
    if |targets| > 0 {
      OnlineTargetsAllOnline(reg, targets[1..]);
    }
  }

  /** An admin who is also listed as a member and is online gets the message at least twice. */
  lemma AdminMemberEmittedTwice(reg: Registry, db: Db, m: ChannelInput, id: MessageId, now: int)
    requires FindMessage(db.messages, id).None? && FindChannel(db.channels, m.channelId).Some?
    requires var c := FindChannel(db.channels, m.channelId).value;
      c.admin in c.members && FindById(db.users, c.admin).Some? && Lookup(reg, c.admin).Some?
    ensures var c := FindChannel(db.channels, m.channelId).value;
      EmissionsTo(SendChannelMessage(reg, db, m, id, now).trace, Lookup(reg, c.admin).value) >= 2
  {
    var c := FindChannel(db.channels, m.channelId).value;
    var s := Lookup(reg, c.admin).value;
    ChannelSendEmissions(reg, db, m, id, now, s);
    TargetsOnMember(reg, PopulatedMembers(db.users, c.members), c.admin);
  }

  /** A target online on its socket counts towards that socket. */
  lemma {:induction false} TargetsOnMember(reg: Registry, targets: seq<UserId>, u: UserId)
    requires u in targets && Lookup(reg, u).Some?
    ensures TargetsOn(reg, targets, Lookup(reg, u).value) >= 1
  {
    if targets[0] != u {
      TargetsOnMember(reg, targets[1..], u);
    }
  }
}
