/** `controllers/ChannelController.js`: creating a channel, listing a user's
    channels, and reading a channel's history. */
module ChannelController {
  import opened Base
  import opened UserModel
  import opened Store
  import opened Sorting
  import Seqs

  /** The body of `create-channel`; `members` may be absent. */
  datatype CreateBody = CreateBody(name: string, members: Option<seq<UserId>>)

  /** `User.find({ _id: { $in: members } }).length`: how many user records
      have an id listed in `members`. */
  function MatchingUsers(users: seq<User>, members: seq<UserId>): (n: nat)
    ensures n <= |users|
    ensures n == 0 <==> forall i :: 0 <= i < |users| ==> users[i].id !in members
    ensures n == |users| <==> forall i :: 0 <= i < |users| ==> users[i].id in members
  {
    if |users| == 0 then 0
    else
      assert forall i :: 1 <= i < |users| ==> users[i] == users[1..][i - 1];
      (if users[0].id in members then 1 else 0) + MatchingUsers(users[1..], members)
  }

  /** The ids present in the collection. */
  function UserIds(users: seq<User>): (ids: set<UserId>)
    ensures forall x :: x in ids <==> exists i :: 0 <= i < |users| && users[i].id == x
  {
    if |users| == 0 then {}
    else
      assert forall i :: 1 <= i < |users| ==> users[i] == users[1..][i - 1];
      {users[0].id} + UserIds(users[1..])
  }

  /** Unique ids stay unique in the tail, and the tail does not hold the head's id. */
  lemma UniqueIdsCons(users: seq<User>)
    requires UniqueIds(users) && |users| > 0
    ensures UniqueIds(users[1..])
    ensures users[0].id !in UserIds(users[1..])
  {
    var tail := users[1..];
    forall i, j | 0 <= i < j < |tail| ensures tail[i].id != tail[j].id {
      assert tail[i] == users[i + 1] && tail[j] == users[j + 1];
    }
    forall i | 0 <= i < |tail| ensures tail[i].id != users[0].id {
      assert tail[i] == users[i + 1];
    }
  }

  /** With unique ids, the count is the number of distinct listed ids that exist. */
  lemma {:induction false} MatchingUsersIsIntersection(users: seq<User>, members: seq<UserId>)
    requires UniqueIds(users)
    ensures MatchingUsers(users, members) == |UserIds(users) * Seqs.Elements(members)|
  {
    if |users| > 0 {
      var tail := users[1..];
      UniqueIdsCons(users);
      MatchingUsersIsIntersection(tail, members);
      assert UserIds(users) == {users[0].id} + UserIds(tail);
      IntersectCons(users[0].id, UserIds(tail), Seqs.Elements(members));
    }
  }

  /** Intersecting `{x} + b`, with `x` not in `b`, counts `x` once when `m` holds it. */
  lemma IntersectCons<T>(x: T, b: set<T>, m: set<T>)
    requires x !in b
    ensures |({x} + b) * m| == |b * m| + (if x in m then 1 else 0)
  {
    if x in m {
      assert ({x} + b) * m == {x} + b * m;
    } else {
      assert ({x} + b) * m == b * m;
    }
  }

  /** The member check accepts exactly the lists that name existing users, each once. */
  lemma MemberCheckExact(users: seq<User>, members: seq<UserId>)
    requires UniqueIds(users)
    ensures MatchingUsers(users, members) == |members| <==>
      Seqs.NoDuplicates(members) && forall i :: 0 <= i < |members| ==> FindById(users, members[i]).Some?
  {
    MatchingUsersIsIntersection(users, members);
    Seqs.ElementsCardinality(members);
    var ids := UserIds(users);
    var m := Seqs.Elements(members);
    IntersectDifference(ids, m);
    if forall i :: 0 <= i < |members| ==> FindById(users, members[i]).Some? {
      forall x | x in m ensures x in ids {
        var i :| 0 <= i < |members| && members[i] == x;
        KnownIsInIds(users, x);
      }
      assert m - ids == {};
    } else {
      var i :| 0 <= i < |members| && FindById(users, members[i]).None?;
      KnownIsInIds(users, members[i]);
      assert members[i] in m - ids;
    }
  }

  /** An id has a user record exactly when it is one of the collection's ids. */
  lemma KnownIsInIds(users: seq<User>, x: UserId)
    ensures FindById(users, x).Some? <==> x in UserIds(users)
  {
    if FindById(users, x).Some? {
      var found := FindById(users, x).value;
      assert found in users;
    } else {
      forall u | u in users ensures u.id != x {
        var k :| 0 <= k < |users| && users[k] == u;
      }
    }
  }

  /** `m` splits into the part inside `ids` and the part outside. */
  lemma IntersectDifference<T>(ids: set<T>, m: set<T>)
    ensures |ids * m| + |m - ids| == |m|
  {
    assert m == (ids * m) + (m - ids);
    assert (ids * m) !! (m - ids);
  }

  /** `CreateChannel`. */
  function CreateChannel(db: Db, requester: UserId, body: CreateBody, id: ChannelId, now: int): (r: (Db, Reply<Channel>))
    ensures FindById(db.users, requester).None? ==> r == (db, Failure(400, "Admin user not found"))
    ensures FindById(db.users, requester).Some? && body.members.None? ==> r == (db, Failure(500, "Internal server error."))
    ensures FindById(db.users, requester).Some? && body.members.Some? ==>
      MatchingUsers(db.users, body.members.value) != |body.members.value| ==>
      r == (db, Failure(400, "Some members are not valid users."))
    ensures FindById(db.users, requester).Some? && body.members.Some? &&
            MatchingUsers(db.users, body.members.value) == |body.members.value| ==>
      if FindChannel(db.channels, id).Some? then r == (db, Failure(500, "Internal server error.")) else r.1.Success?
    ensures r.1.Failure? ==> r.0 == db
    ensures r.1.Success? ==>
      && r.1.status == 201
      && r.1.value == Channel(id, body.name, body.members.value, requester, [], now)
      && r.0 == db.(channels := db.channels + [r.1.value])
  {
    if FindById(db.users, requester).None? then (db, Failure(400, "Admin user not found"))
    else if body.members.None? then (db, Failure(500, "Internal server error."))
    else if MatchingUsers(db.users, body.members.value) != |body.members.value| then
      (db, Failure(400, "Some members are not valid users."))
    else if FindChannel(db.channels, id).Some? then (db, Failure(500, "Internal server error."))
    else
      var channel := Channel(id, body.name, body.members.value, requester, [], now);
      (db.(channels := db.channels + [channel]), Success(201, channel))
  }

  /** For a known requester and a fresh id, creation succeeds exactly when the
      members are existing users listed once each; the admin is not added to them. */
  lemma CreateChannelAccepts(db: Db, requester: UserId, name: string, members: seq<UserId>, id: ChannelId, now: int)
    requires UniqueIds(db.users) && FindById(db.users, requester).Some? && FindChannel(db.channels, id).None?
    ensures var r := CreateChannel(db, requester, CreateBody(name, Some(members)), id, now);
      (r.1.Success? <==> Seqs.NoDuplicates(members) && forall i :: 0 <= i < |members| ==> FindById(db.users, members[i]).Some?)
      && (r.1.Success? ==> r.1.value.admin == requester && r.1.value.members == members)
  {
    MemberCheckExact(db.users, members);
  }

  /** The channels visible to a user: those it administers or belongs to. */
  predicate Visible(c: Channel, u: UserId): (b: bool)
    ensures b <==> u in {c.admin} + Seqs.Elements(c.members)
  {
    c.admin == u || u in c.members
  }

  /** `getUserChannels`: `{ $or: [{ admin: u }, { members: u }] }`, most
      recently updated first, answered with status 201. */
  function GetUserChannels(channels: seq<Channel>, u: UserId): (r: Reply<seq<Channel>>)
    ensures r.Success? && r.status == 201
    ensures forall c :: c in r.value <==> c in channels && Visible(c, u)
    ensures Ordered(r.value, UpdatedAtOf, Descending)
    ensures multiset(r.value) == multiset(Seqs.Filter(channels, c => Visible(c, u)))
  {
    Success(201, SortBy(Seqs.Filter(channels, c => Visible(c, u)), UpdatedAtOf, Descending))
  }

  /** `populate("messages")`: each listed id replaced by its message, in list
      order; ids with no message are dropped. */
  function ResolveMessages(messages: seq<Message>, ids: seq<MessageId>): (r: seq<Message>)
    ensures |r| <= |ids|
    ensures forall m :: m in r ==> m in messages && m.id in ids
  {
    if |ids| == 0 then []
    else
      assert ids == [ids[0]] + ids[1..];
      (match FindMessage(messages, ids[0]) case None => [] case Some(m) => [m]) + ResolveMessages(messages, ids[1..])
  }

  /** When every id resolves, the history lists the messages in stored id order. */
  lemma {:induction false} ResolveMessagesInOrder(messages: seq<Message>, ids: seq<MessageId>)
    requires forall i :: 0 <= i < |ids| ==> FindMessage(messages, ids[i]).Some?
    ensures |ResolveMessages(messages, ids)| == |ids|
    ensures forall i :: 0 <= i < |ids| ==> ResolveMessages(messages, ids)[i] == FindMessage(messages, ids[i]).value
  {
    if |ids| > 0 {
      ResolveMessagesInOrder(messages, ids[1..]);
      var r := ResolveMessages(messages, ids);
      forall i | 1 <= i < |ids| ensures r[i] == FindMessage(messages, ids[i]).value {
        assert ids[1..][i - 1] == ids[i];
      }
    }
  }

  /** Resolving an appended id appends its message. */
  lemma {:induction false} ResolveMessagesAppend(messages: seq<Message>, ids: seq<MessageId>, id: MessageId)
    ensures ResolveMessages(messages, ids + [id]) ==
      ResolveMessages(messages, ids) + match FindMessage(messages, id) case None => [] case Some(m) => [m]
  {
    if |ids| == 0 {
      assert ids + [id] == [id];
    } else {
      assert (ids + [id])[0] == ids[0];
      assert (ids + [id])[1..] == ids[1..] + [id];
      ResolveMessagesAppend(messages, ids[1..], id);
    }
  }

  /** `getChannelMessages`. An unknown channel reaches `response.status(404)`,
      but `response` is not defined in this file, so the handler answers 500. */
  function GetChannelMessages(db: Db, channelId: ChannelId): (r: Reply<seq<Message>>)
    ensures FindChannel(db.channels, channelId).None? ==> r == Failure(500, "Internal server error.")
    ensures FindChannel(db.channels, channelId).Some? ==>
      r.Success? && r.status == 201 && forall m :: m in r.value ==> m in db.messages && m.id in FindChannel(db.channels, channelId).value.messages
  {
    match FindChannel(db.channels, channelId)
    case None => Failure(500, "Internal server error.")
    case Some(c) => Success(201, ResolveMessages(db.messages, c.messages))
  }
}
