/** Properties that span several handlers: what one handler stores, another reads back. */
module Flows {
  import opened Base
  import opened UserModel
  import opened Store
  import opened Presence
  import opened Socket
  import MessagesController
  import ChannelController
  import AuthController
  import Seqs

  /** Someone who just signed up can log in with the same credentials, given
      that bcrypt's `compare` accepts a password against its own hash. */
  lemma SignupThenLogin(users: seq<User>, body: AuthController.Credentials, secret: Option<string>, id: UserId,
                        hash: string -> string, compare: (string, string) -> bool)
    requires forall p :: compare(p, hash(p))
    requires AuthController.Signup(users, body, secret, id, hash).1.Success?
    ensures var users' := AuthController.Signup(users, body, secret, id, hash).0;
      var r := AuthController.Login(users', body, secret, compare);
      r.Success? && r.value.id == id && r.value.profileSetup == Some(false)
  {
    var users' := AuthController.Signup(users, body, secret, id, hash).0;
    var created := AuthController.NewUser(id, body.email.value, hash(body.password.value));
    assert users' == users + [created];
    assert FindByEmail(users', body.email.value) == Some(created) by {
      FindByEmailAfterAppend(users, created);
    }
  }

  lemma {:induction false} FindByEmailAfterAppend(users: seq<User>, u: User)
    requires FindByEmail(users, u.email).None?
    ensures FindByEmail(users + [u], u.email) == Some(u)
  {
    if |users| > 0 {
      assert (users + [u])[1..] == users[1..] + [u];
      FindByEmailAfterAppend(users[1..], u);
    }
  }

  /** A direct message that was stored is in the two users' history. */
  lemma DirectMessageRetrievable(reg: Registry, db: Db, m: DirectInput, id: MessageId, now: int)
    requires FindMessage(db.messages, id).None? && m.sender != "" && m.recipient != ""
    ensures var db' := SendMessage(reg, db, m, id, now).db;
      var r := MessagesController.GetMessages(db'.messages, Some(m.sender), Some(m.recipient));
      r.Success? && DirectRecord(m, id, now) in r.value
  {
    var db' := SendMessage(reg, db, m, id, now).db;
    assert DirectRecord(m, id, now) in db'.messages;
  }

  /** Every message id a channel lists refers to a stored message. */
  predicate ChannelRefsResolve(db: Db)
  {
    forall i, j :: 0 <= i < |db.channels| && 0 <= j < |db.channels[i].messages| ==>
      FindMessage(db.messages, db.channels[i].messages[j]).Some?
  }

  /** A channel send keeps every channel reference resolvable. */
  lemma ChannelSendKeepsRefs(reg: Registry, db: Db, m: ChannelInput, id: MessageId, now: int)
    requires ChannelRefsResolve(db)
    ensures ChannelRefsResolve(SendChannelMessage(reg, db, m, id, now).db)
  {
    if FindMessage(db.messages, id).None? {
      var db' := SendChannelMessage(reg, db, m, id, now).db;
      var stored := ChannelRecord(m, id, now);
      forall i, j | 0 <= i < |db'.channels| && 0 <= j < |db'.channels[i].messages|
        ensures FindMessage(db'.messages, db'.channels[i].messages[j]).Some?
      {
        FindMessageAfterAppend(db.messages, stored, db'.channels[i].messages[j]);
        if db.channels[i].id == m.channelId && j == |db.channels[i].messages| {
          assert db'.channels[i].messages[j] == id;
        } else {
          assert db'.channels[i].messages[j] == db.channels[i].messages[j];
        }
      }
    }
  }

  /** After a channel send, the channel's history is the earlier history
      followed by the new message: the append order of the send. */
  lemma ChannelHistoryAfterSend(reg: Registry, db: Db, m: ChannelInput, id: MessageId, now: int)
    requires ChannelRefsResolve(db)
    requires FindMessage(db.messages, id).None? && FindChannel(db.channels, m.channelId).Some?
    ensures var before := ChannelController.GetChannelMessages(db, m.channelId);
      var after := ChannelController.GetChannelMessages(SendChannelMessage(reg, db, m, id, now).db, m.channelId);
      after.Success? && after.value == before.value + [ChannelRecord(m, id, now)]
  {
    var c := FindChannel(db.channels, m.channelId).value;
    var stored := ChannelRecord(m, id, now);
    var db' := SendChannelMessage(reg, db, m, id, now).db;
    FindChannelAfterPush(db.channels, m.channelId, id);
    var k :| 0 <= k < |db.channels| && db.channels[k] == c;
    ResolveAfterAppend(db.messages, stored, c.messages);
    ChannelController.ResolveMessagesAppend(db'.messages, c.messages, id);
    FindMessageAfterAppend(db.messages, stored, id);
  }

  /** Storing a message with a new id does not change how resolvable ids resolve. */
  lemma {:induction false} ResolveAfterAppend(messages: seq<Message>, m: Message, ids: seq<MessageId>)
    requires FindMessage(messages, m.id).None?
    requires forall i :: 0 <= i < |ids| ==> FindMessage(messages, ids[i]).Some?
    ensures ChannelController.ResolveMessages(messages + [m], ids) == ChannelController.ResolveMessages(messages, ids)
  {
    if |ids| > 0 {
      FindMessageAfterAppend(messages, m, ids[0]);
      ResolveAfterAppend(messages, m, ids[1..]);
    }
  }

  /** A created channel is listed for its admin and for each of its members,
      and populating its members keeps all of them. */
  lemma CreatedChannelVisible(db: Db, requester: UserId, body: ChannelController.CreateBody, id: ChannelId, now: int)
    requires UniqueIds(db.users)
    requires ChannelController.CreateChannel(db, requester, body, id, now).1.Success?
    ensures var r := ChannelController.CreateChannel(db, requester, body, id, now);
      var c := r.1.value;
      && c in ChannelController.GetUserChannels(r.0.channels, requester).value
      && (forall u :: u in c.members ==> c in ChannelController.GetUserChannels(r.0.channels, u).value)
      && PopulatedMembers(r.0.users, c.members) == c.members
  {
    var r := ChannelController.CreateChannel(db, requester, body, id, now);
    ChannelController.MemberCheckExact(db.users, body.members.value);
    PopulatedMembersAllKnown(db.users, body.members.value);
  }

  /** The scenario of a channel with member `u3` and admin `u4`, both online:
      the message goes to `u3`'s socket, then to `u4`'s. */
  lemma ChannelScenario()
    ensures var users := [User("u3", "a@x", "h", None, None, None, None, None), User("u4", "b@x", "h", None, None, None, None, None)];
      var db := Db(users, [], [Channel("c1", "general", ["u3"], "u4", [], 0)]);
      var reg := [Entry("u3", "s3"), Entry("u4", "s4")];
      var o := SendChannelMessage(reg, db, ChannelInput("c1", "u3", Some("hi"), "text", None), "m1", 7);
      |o.trace| == 2 && o.trace[0].socket == "s3" && o.trace[1].socket == "s4"
        && o.db.channels[0].messages == ["m1"]
  {
  }
}
