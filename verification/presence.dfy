/** The presence registry of `socket.js`: the `userSocketMap` from user id to
    socket id. A JavaScript `Map` iterates in insertion order, and `set` on an
    existing key keeps the key's position, so the registry is modelled as an
    ordered sequence of entries. */
module Presence {
  import opened Base

  datatype Entry = Entry(user: UserId, socket: SocketId)

  type Registry = seq<Entry>

  /** A `Map` never holds a key twice. */
  predicate KeysUnique(r: Registry)
  {
    forall i, j :: 0 <= i < j < |r| ==> r[i].user != r[j].user
  }

  /** No socket id is registered for two users. */
  predicate SocketsUnique(r: Registry)
  {
    forall i, j :: 0 <= i < j < |r| ==> r[i].socket != r[j].socket
  }

  /** `userSocketMap.get(u)`. */
  function Lookup(r: Registry, u: UserId): (o: Option<SocketId>)
    ensures o.None? <==> forall i :: 0 <= i < |r| ==> r[i].user != u
    ensures o.Some? ==> Entry(u, o.value) in r
  {
    if |r| == 0 then None
    else if r[0].user == u then Some(r[0].socket)
    else Lookup(r[1..], u)
  }

  /** `userSocketMap.set(u, s)`: overwrite in place, or append a new key. */
  function Set(r: Registry, u: UserId, s: SocketId): (r': Registry)
    ensures forall v :: Lookup(r', v) == if v == u then Some(s) else Lookup(r, v)
    ensures Lookup(r, u).None? ==> r' == r + [Entry(u, s)]
    ensures Lookup(r, u).Some? ==> |r'| == |r| && forall i :: 0 <= i < |r| ==> r'[i].user == r[i].user
    ensures forall e :: e in r' ==> e == Entry(u, s) || e in r
  {
    if |r| == 0 then [Entry(u, s)]
    else if r[0].user == u then [Entry(u, s)] + r[1..]
    else
      assert r == [r[0]] + r[1..];
      [r[0]] + Set(r[1..], u, s)
  }

  /** The `connection` handler's registration branch: a truthy `userId` in
      the handshake query is mapped to the socket; otherwise nothing changes. */
  function Connect(r: Registry, userId: Option<string>, s: SocketId): (r': Registry)
    ensures Truthy(userId) ==> Lookup(r', userId.value) == Some(s)
    ensures Truthy(userId) ==> forall v :: v != userId.value ==> Lookup(r', v) == Lookup(r, v)
    ensures !Truthy(userId) ==> r' == r
  {
    if Truthy(userId) then Set(r, userId.value, s) else r
  }

  /** The position of the first entry whose value is `s`, the one the scan in `disconnect` stops at. */
  function FirstOnSocket(r: Registry, s: SocketId): (k: Option<nat>)
    ensures k.None? <==> forall i :: 0 <= i < |r| ==> r[i].socket != s
    ensures k.Some? ==> k.value < |r| && r[k.value].socket == s
    ensures k.Some? ==> forall j :: 0 <= j < k.value ==> r[j].socket != s
  {
    if |r| == 0 then None
    else if r[0].socket == s then Some(0)
    else
      match FirstOnSocket(r[1..], s)
      case None => None
      case Some(k) => Some(k + 1)
  }

  /** `disconnect(socket)`: scan the entries in order and delete the first
      whose value is the socket id, then stop. */
  function Disconnect(r: Registry, s: SocketId): (r': Registry)
    ensures FirstOnSocket(r, s).None? ==> r' == r
    ensures FirstOnSocket(r, s).Some? ==> r' == r[..FirstOnSocket(r, s).value] + r[FirstOnSocket(r, s).value + 1..]
  {
    if |r| == 0 then []
    else if r[0].socket == s then r[1..]
    else
      var rest := Disconnect(r[1..], s);
      DisconnectStep(r, s, rest);
      [r[0]] + rest
  }

  /** One step of the scan: an entry that does not hold the socket is kept in front. */
  lemma DisconnectStep(r: Registry, s: SocketId, rest: Registry)
    requires |r| > 0 && r[0].socket != s
    requires FirstOnSocket(r[1..], s).None? ==> rest == r[1..]
    requires FirstOnSocket(r[1..], s).Some? ==>
      rest == r[1..][..FirstOnSocket(r[1..], s).value] + r[1..][FirstOnSocket(r[1..], s).value + 1..]
    ensures FirstOnSocket(r, s).None? ==> [r[0]] + rest == r
    ensures FirstOnSocket(r, s).Some? ==>
      [r[0]] + rest == r[..FirstOnSocket(r, s).value] + r[FirstOnSocket(r, s).value + 1..]
  {
    assert r == [r[0]] + r[1..];
    match FirstOnSocket(r[1..], s)
    case None =>
    case Some(k) =>
      assert r[..k + 1] == [r[0]] + r[1..][..k];
      assert r[k + 2..] == r[1..][k + 1..];
  }

  /** Overwriting or appending a key never makes a key repeat. */
  lemma SetKeepsKeysUnique(r: Registry, u: UserId, s: SocketId)
    ensures KeysUnique(r) ==> KeysUnique(Set(r, u, s))
  {
    var r' := Set(r, u, s);
    if KeysUnique(r) && Lookup(r, u).None? {
      forall i, j | 0 <= i < j < |r'| ensures r'[i].user != r'[j].user {
        if j == |r| {
          assert r'[i] == r[i];
        }
      }
    }
  }

  /** Removing the entry at `k` keeps the keys unique and invents no entry. */
  lemma RemoveKeepsKeysUnique(r: Registry, k: nat)
    requires k < |r|
    ensures KeysUnique(r) ==> KeysUnique(r[..k] + r[k + 1..])
    ensures forall e :: e in r[..k] + r[k + 1..] ==> e in r
  {
    var r' := r[..k] + r[k + 1..];
    assert forall i :: 0 <= i < |r'| ==> r'[i] == r[if i < k then i else i + 1];
  }

  /** Disconnecting removes one entry at most, so keys stay unique and no entry is invented. */
  lemma DisconnectKeepsKeysUnique(r: Registry, s: SocketId)
    ensures KeysUnique(r) ==> KeysUnique(Disconnect(r, s))
    ensures forall e :: e in Disconnect(r, s) ==> e in r
  {
    if FirstOnSocket(r, s).Some? {
      RemoveKeepsKeysUnique(r, FirstOnSocket(r, s).value);
    }
  }

  /** Disconnecting a socket other than the one a user is found on keeps that user's entry. */
  lemma {:induction false} LookupSurvivesOtherDisconnect(r: Registry, s: SocketId, u: UserId)
    requires Lookup(r, u).Some? && Lookup(r, u).value != s
    ensures Lookup(Disconnect(r, s), u) == Lookup(r, u)
  {
    if r[0].user != u && r[0].socket != s {
      LookupSurvivesOtherDisconnect(r[1..], s, u);
    }
  }

  /** After a user reconnects on `s2`, disconnecting the stale socket `s1`
      leaves the user mapped to `s2`. */
  lemma ReconnectSurvivesStaleDisconnect(r: Registry, u: UserId, s1: SocketId, s2: SocketId)
    requires s1 != s2
    ensures Lookup(Disconnect(Set(r, u, s2), s1), u) == Some(s2)
  {
    LookupSurvivesOtherDisconnect(Set(r, u, s2), s1, u);
  }

  /** In a registry without repeated keys, each entry is what its key looks up. */
  lemma {:induction false} LookupOfEntry(r: Registry, k: nat)
    requires KeysUnique(r) && k < |r|
    ensures Lookup(r, r[k].user) == Some(r[k].socket)
  {
    if k > 0 {
      assert r[0].user != r[k].user;
      LookupOfEntry(r[1..], k - 1);
    }
  }

  /** If only `u` was ever registered on `s1`, then once `u` has reconnected on
      `s2` the disconnect of `s1` removes nothing. */
  lemma StaleDisconnectIsNoop(r: Registry, u: UserId, s1: SocketId, s2: SocketId)
    requires KeysUnique(r) && s1 != s2
    requires forall e :: e in r && e.socket == s1 ==> e.user == u
    ensures Disconnect(Set(r, u, s2), s1) == Set(r, u, s2)
  {
    var r' := Set(r, u, s2);
    SetKeepsKeysUnique(r, u, s2);
    forall i | 0 <= i < |r'| ensures r'[i].socket != s1 {
      LookupOfEntry(r', i);
      if r'[i].user != u {
        assert r'[i] in r;
      }
    }
  }

  /** When each socket belongs to one user, disconnecting a user's socket takes the user offline. */
  lemma {:induction false} DisconnectTakesOwnerOffline(r: Registry, u: UserId, s: SocketId)
    requires KeysUnique(r) && SocketsUnique(r)
    requires Lookup(r, u) == Some(s)
    ensures Lookup(Disconnect(r, s), u).None?
  {
    if r[0].user == u {
      forall i | 0 <= i < |r[1..]| ensures r[1..][i].user != u {
        assert r[i + 1].user != r[0].user;
      }
    } else {
      assert r[0].socket != s by {
        var k :| 0 <= k < |r| && r[k] == Entry(u, s);
        assert k != 0;
      }
      DisconnectTakesOwnerOffline(r[1..], u, s);
    }
  }

  /** The registry events `socket.js` reacts to. */
  datatype Event = Connected(userId: Option<string>, socket: SocketId) | Disconnected(socket: SocketId)

  function Apply(r: Registry, e: Event): (r': Registry)
    ensures KeysUnique(r) ==> KeysUnique(r')
  {
    match e
    case Connected(u, s) =>
      if Truthy(u) then SetKeepsKeysUnique(r, u.value, s); Connect(r, u, s) else
      Connect(r, u, s)
    case Disconnected(s) =>
      DisconnectKeepsKeysUnique(r, s);
      Disconnect(r, s)
  }

  /** The registry after a run of events, in order. */
  function Run(r: Registry, events: seq<Event>): (r': Registry)
    ensures KeysUnique(r) ==> KeysUnique(r')
    decreases |events|
  {
    if |events| == 0 then r else Run(Apply(r, events[0]), events[1..])
  }
}
