/** `controllers/ContactsController.js`: contact search, the direct-message
    contact list, and the contact picker list. */
module ContactsController {
  import opened Base
  import opened Text
  import opened UserModel
  import opened Store
  import opened Sorting
  import Seqs

  // ---------------------------------------------------------------------------
  // Escaping the search text for use in a regular expression

  /** The characters of the class `[.*+?^${}()|[\]\\]`. */
  predicate IsRegexMeta(c: char)
  {
    c in ".*+?^${}()|[]\\"
  }

  /** How many characters of `s` are metacharacters: none exactly when no
      position holds one, all exactly when every position does. */
  function CountMeta(s: string): (n: nat)
    ensures n <= |s|
    ensures n == 0 <==> forall i :: 0 <= i < |s| ==> !IsRegexMeta(s[i])
    ensures n == |s| <==> forall i :: 0 <= i < |s| ==> IsRegexMeta(s[i])
  {
    if |s| == 0 then 0
    else
      assert forall i :: 1 <= i < |s| ==> s[i] == s[1..][i - 1];
      (if IsRegexMeta(s[0]) then 1 else 0) + CountMeta(s[1..])
  }

  /** `searchValue.replace(/[.*+?^${}()|[\]\\]/g, "\\$&")`: a backslash in
      front of each metacharacter. */
  function EscapeRegex(s: string): (r: string)
    ensures |r| == |s| + CountMeta(s)
  {
    if |s| == 0 then []
    else (if IsRegexMeta(s[0]) then ['\\', s[0]] else [s[0]]) + EscapeRegex(s[1..])
  }

  /** A pattern that is plain text: every metacharacter in it is escaped. */
  predicate LiteralPattern(p: string)
    decreases |p|
  {
    if |p| == 0 then true
    else if IsRegexMeta(p[0]) then |p| >= 2 && p[0] == '\\' && IsRegexMeta(p[1]) && LiteralPattern(p[2..])
    else LiteralPattern(p[1..])
  }

  /** Drops each backslash that precedes a metacharacter: the text a literal pattern matches. */
  function Unescape(p: string): string
    decreases |p|
  {
    if |p| >= 2 && p[0] == '\\' && IsRegexMeta(p[1]) then [p[1]] + Unescape(p[2..])
    else if |p| == 0 then []
    else [p[0]] + Unescape(p[1..])
  }

  /** The escaped text is a literal pattern that denotes exactly the original text. */
  lemma {:induction false} EscapeRoundTrip(s: string)
    ensures LiteralPattern(EscapeRegex(s))
    ensures Unescape(EscapeRegex(s)) == s
  {
    if |s| > 0 {
      EscapeRoundTrip(s[1..]);
      var e := EscapeRegex(s);
      if IsRegexMeta(s[0]) {
        assert e[2..] == EscapeRegex(s[1..]);
      } else {
        assert e[1..] == EscapeRegex(s[1..]);
      }
      assert s == [s[0]] + s[1..];
    }
  }

  /** Every literal pattern is the escape of the text it denotes. */
  lemma {:induction false} UnescapeRoundTrip(p: string)
    requires LiteralPattern(p)
    ensures EscapeRegex(Unescape(p)) == p
    decreases |p|
  {
    if |p| > 0 {
      if IsRegexMeta(p[0]) {
        UnescapeRoundTrip(p[2..]);
        assert Unescape(p) == [p[1]] + Unescape(p[2..]);
        assert ([p[1]] + Unescape(p[2..]))[1..] == Unescape(p[2..]);
        assert p == [p[0], p[1]] + p[2..];
      } else {
        UnescapeRoundTrip(p[1..]);
        assert ([p[0]] + Unescape(p[1..]))[1..] == Unescape(p[1..]);
        assert p == [p[0]] + p[1..];
      }
    }
  }

  // ---------------------------------------------------------------------------
  // searchContacts

  /** `{ field: { $regex: new RegExp(pattern, "i") } }` for a literal pattern:
      the field is present and contains the pattern's text, ignoring ASCII case. */
  predicate RegexMatches(pattern: string, field: Option<string>)
  {
    field.Some? && Contains(Lower(field.value), Lower(Unescape(pattern)))
  }

  /** The plain reading of the search: the field contains the text, ignoring ASCII case. */
  predicate ContainsIgnoringCase(field: Option<string>, text: string)
  {
    field.Some? && Contains(Lower(field.value), Lower(text))
  }

  predicate SearchHit(u: User, text: string)
  {
    ContainsIgnoringCase(u.firstName, text) || ContainsIgnoringCase(u.lastName, text) || ContainsIgnoringCase(Some(u.email), text)
  }

  /** `searchContacts`. A missing `searchValue` reaches `response.status(400)`,
      but `response` is not defined in this file, so the thrown error ends in
      the 500 branch. Otherwise: every user other than the requester whose
      first name, last name or email matches the escaped pattern, in store order. */
  function SearchContacts(users: seq<User>, requester: UserId, searchValue: Option<string>): (r: Reply<seq<User>>)
    ensures r.Failure? <==> searchValue.None?
    ensures r.Failure? ==> r.status == 500 && r.message == "Internal server error"
    ensures r.Success? ==> r.status == 200
    ensures r.Success? ==> forall u :: u in r.value <==> u in users && u.id != requester && SearchHit(u, searchValue.value)
  {
    match searchValue
    case None => Failure(500, "Internal server error")
    case Some(text) =>
      var pattern := EscapeRegex(text);
      EscapeRoundTrip(text);
      Success(200, Seqs.Filter(users, (x: User) =>
        x.id != requester &&
        (RegexMatches(pattern, x.firstName) || RegexMatches(pattern, x.lastName) || RegexMatches(pattern, Some(x.email)))))
  }

  /** Every string contains the empty string. */
  lemma {:induction false} ContainsEmpty(s: string)
    ensures Contains(s, "")
  {
  }

  /** An empty search text is not rejected and returns every other user. */
  lemma EmptySearchReturnsEveryoneElse(users: seq<User>, requester: UserId)
    ensures var r := SearchContacts(users, requester, Some(""));
      r.Success? && forall u :: u in r.value <==> u in users && u.id != requester
  {
    forall u | u in users ensures SearchHit(u, "") {
      ContainsEmpty(Lower(u.email));
    }
  }

  // ---------------------------------------------------------------------------
  // getContactsForDMList

  /** `$match: { $or: [{ sender: u }, { recipient: u }] }`. */
  predicate Involves(u: UserId, m: Message)
  {
    m.sender == u || m.recipient == Some(u)
  }

  /** The group key: the recipient of what `u` sent, the sender of everything else. */
  function Counterpart(u: UserId, m: Message): (k: Option<UserId>)
    ensures Involves(u, m) && m.recipient.Some? ==> k.Some? && {m.sender, m.recipient.value} == {u, k.value}
    ensures m.sender == u && m.recipient.None? ==> k.None?
  {
    if m.sender == u then m.recipient else Some(m.sender)
  }

  /** `t` is the latest timestamp among `u`'s messages with counterpart `k`. */
  predicate IsLatest(u: UserId, messages: seq<Message>, k: Option<UserId>, t: int)
  {
    && (exists i :: 0 <= i < |messages| && Involves(u, messages[i]) && Counterpart(u, messages[i]) == k && messages[i].timestamp == t)
    && (forall i :: 0 <= i < |messages| && Involves(u, messages[i]) && Counterpart(u, messages[i]) == k ==> messages[i].timestamp <= t)
  }

  /** One `$group` bucket: the key and the `$first` timestamp of the newest-first order. */
  datatype Bucket = Bucket(key: Option<UserId>, latest: int)

  predicate DistinctKeys(bs: seq<Bucket>)
  {
    forall i, j :: 0 <= i < j < |bs| ==> bs[i].key != bs[j].key
  }

  function LatestOf(bs: seq<Bucket>, k: Option<UserId>): (r: Option<int>)
    ensures r.None? <==> forall i :: 0 <= i < |bs| ==> bs[i].key != k
  {
    if |bs| == 0 then None else if bs[0].key == k then Some(bs[0].latest) else LatestOf(bs[1..], k)
  }

  /** In buckets with distinct keys, each bucket's value is what its key looks up. */
  lemma {:induction false} LatestOfBucket(bs: seq<Bucket>, i: nat)
    requires DistinctKeys(bs) && i < |bs|
    ensures LatestOf(bs, bs[i].key) == Some(bs[i].latest)
  {
    if i > 0 {
      assert bs[0].key != bs[i].key;
      LatestOfBucket(bs[1..], i - 1);
    }
  }

  /** Folds one message into the buckets: raise its key's time, or open a bucket. */
  function AddToBucket(bs: seq<Bucket>, k: Option<UserId>, t: int): (r: seq<Bucket>)
    ensures LatestOf(r, k) == Some(if LatestOf(bs, k).Some? && LatestOf(bs, k).value > t then LatestOf(bs, k).value else t)
    ensures forall k' :: k' != k ==> LatestOf(r, k') == LatestOf(bs, k')
  {
    if |bs| == 0 then [Bucket(k, t)]
    else if bs[0].key == k then [Bucket(k, if bs[0].latest > t then bs[0].latest else t)] + bs[1..]
    else [bs[0]] + AddToBucket(bs[1..], k, t)
  }

  /** Folding a message in never opens a second bucket for a key. */
  lemma {:induction false} AddToBucketDistinct(bs: seq<Bucket>, k: Option<UserId>, t: int)
    requires DistinctKeys(bs)
    ensures DistinctKeys(AddToBucket(bs, k, t))
  {
    if |bs| > 0 && bs[0].key != k {
      var rest := AddToBucket(bs[1..], k, t);
      AddToBucketDistinct(bs[1..], k, t);
      forall j | 0 <= j < |rest| ensures rest[j].key != bs[0].key {
        var key := rest[j].key;
        if key != k {
          assert LatestOf(rest, key).Some?;
          var w :| 0 <= w < |bs[1..]| && bs[1..][w].key == key;
          assert bs[w + 1].key == key;
        }
      }
      var r := [bs[0]] + rest;
      forall i, j | 0 <= i < j < |r| ensures r[i].key != r[j].key {
        assert r[j] == rest[j - 1];
      }
    } else if |bs| > 0 {
      var r := AddToBucket(bs, k, t);
      assert forall i :: 0 <= i < |r| ==> r[i].key == bs[i].key;
    }
  }

  /** `$group` over `u`'s messages. */
  function Group(u: UserId, messages: seq<Message>): (r: seq<Bucket>)
    ensures DistinctKeys(r)
  {
    if |messages| == 0 then []
    else
      var g := Group(u, messages[1..]);
      AddToBucketDistinct(g, Counterpart(u, messages[0]), messages[0].timestamp);
      AddToBucket(g, Counterpart(u, messages[0]), messages[0].timestamp)
  }

  /** A key has a bucket exactly when some message has it as counterpart. */
  lemma {:induction false} GroupKeys(u: UserId, messages: seq<Message>, k: Option<UserId>)
    ensures LatestOf(Group(u, messages), k).None? <==>
      forall i :: 0 <= i < |messages| ==> Counterpart(u, messages[i]) != k
  {
    if |messages| > 0 {
      GroupKeys(u, messages[1..], k);
      assert forall i :: 1 <= i < |messages| ==> messages[i] == messages[1..][i - 1];
    }
  }

  /** Each key that occurs among `u`'s messages gets one bucket, whose time is the latest. */
  lemma {:induction false} GroupIsLatest(u: UserId, messages: seq<Message>, k: Option<UserId>)
    requires forall i :: 0 <= i < |messages| ==> Involves(u, messages[i])
    ensures LatestOf(Group(u, messages), k).Some? ==> IsLatest(u, messages, k, LatestOf(Group(u, messages), k).value)
  {
    if |messages| > 0 {
      var tail := messages[1..];
      GroupIsLatest(u, tail, k);
      var m := messages[0];
      forall i | 1 <= i < |messages| ensures messages[i] == tail[i - 1] { }
      if Counterpart(u, m) == k {
        var t := LatestOf(Group(u, messages), k).value;
        if LatestOf(Group(u, tail), k).Some? && LatestOf(Group(u, tail), k).value > m.timestamp {
          var i :| 0 <= i < |tail| && Involves(u, tail[i]) && Counterpart(u, tail[i]) == k && tail[i].timestamp == t;
          assert messages[i + 1] == tail[i];
        } else {
          GroupKeys(u, tail, k);
          assert Involves(u, messages[0]) && messages[0].timestamp == t;
        }
      } else if LatestOf(Group(u, messages), k).Some? {
        var t := LatestOf(Group(u, messages), k).value;
        var i :| 0 <= i < |tail| && Involves(u, tail[i]) && Counterpart(u, tail[i]) == k && tail[i].timestamp == t;
        assert messages[i + 1] == tail[i];
      }
    }
  }

  /** `m` involves `u` and its counterpart has a user record. */
  predicate HasKnownCounterpart(u: UserId, users: seq<User>, m: Message)
  {
    Involves(u, m) && Counterpart(u, m).Some? && FindById(users, Counterpart(u, m).value).Some?
  }

  /** One entry of the DM contact list: the counterpart's id, the time of the
      latest message, and the fields projected from the counterpart's record. */
  datatype DmContact = DmContact(
    id: UserId,
    lastMessageTime: int,
    email: string,
    firstName: Option<string>,
    lastName: Option<string>,
    profileImage: Option<string>,
    color: Option<int>)

  function LastMessageTimeOf(c: DmContact): int { c.lastMessageTime }

  /** `$project` of a bucket joined with its user record. */
  function Project(x: User, t: int): DmContact
  {
    DmContact(x.id, t, x.email, x.firstName, x.lastName, x.profileImage, x.color)
  }

  /** `$lookup` plus `$unwind`: buckets whose key has no user record (which
      includes the null key of channel messages) disappear. */
  function Join(bs: seq<Bucket>, users: seq<User>): (r: seq<DmContact>)
    ensures |r| <= |bs|
  {
    if |bs| == 0 then []
    else
      var b := bs[0];
      (if b.key.Some? && FindById(users, b.key.value).Some? then [Project(FindById(users, b.key.value).value, b.latest)] else [])
      + Join(bs[1..], users)
  }

  /** Every joined entry comes from a bucket with a user record and carries that record's fields. */
  lemma {:induction false} JoinSound(bs: seq<Bucket>, users: seq<User>)
    ensures forall c :: c in Join(bs, users) ==>
      && FindById(users, c.id).Some?
      && c == Project(FindById(users, c.id).value, c.lastMessageTime)
      && exists i :: 0 <= i < |bs| && bs[i] == Bucket(Some(c.id), c.lastMessageTime)
  {
    if |bs| > 0 {
      JoinSound(bs[1..], users);
      forall c | c in Join(bs[1..], users) ensures exists i :: 0 <= i < |bs| && bs[i] == Bucket(Some(c.id), c.lastMessageTime) {
        var i :| 0 <= i < |bs[1..]| && bs[1..][i] == Bucket(Some(c.id), c.lastMessageTime);
        assert bs[i + 1] == bs[1..][i];
      }
    }
  }

  /** Every bucket whose key has a user record yields an entry. */
  lemma {:induction false} JoinComplete(bs: seq<Bucket>, users: seq<User>, i: nat)
    requires i < |bs| && bs[i].key.Some? && FindById(users, bs[i].key.value).Some?
    ensures exists c :: c in Join(bs, users) && c.id == bs[i].key.value
  {
    if i > 0 {
      JoinComplete(bs[1..], users, i - 1);
      var c :| c in Join(bs[1..], users) && c.id == bs[i].key.value;
      assert c in Join(bs, users);
    } else {
      var c := Project(FindById(users, bs[0].key.value).value, bs[0].latest);
      assert c in Join(bs, users);
    }
  }

  /** Distinct bucket keys give distinct contact ids. */
  lemma {:induction false} JoinDistinct(bs: seq<Bucket>, users: seq<User>)
    requires DistinctKeys(bs)
    ensures forall i, j :: 0 <= i < j < |Join(bs, users)| ==> Join(bs, users)[i].id != Join(bs, users)[j].id
  {
    if |bs| > 0 {
      var rest := Join(bs[1..], users);
      JoinDistinct(bs[1..], users);
      JoinSound(bs[1..], users);
      forall j | 0 <= j < |rest| ensures Some(rest[j].id) != bs[0].key {
        assert rest[j] in rest;
        var i :| 0 <= i < |bs[1..]| && bs[1..][i] == Bucket(Some(rest[j].id), rest[j].lastMessageTime);
        assert bs[i + 1].key == Some(rest[j].id);
      }
      var r := Join(bs, users);
      if bs[0].key.Some? && FindById(users, bs[0].key.value).Some? {
        assert r == [Project(FindById(users, bs[0].key.value).value, bs[0].latest)] + rest;
        forall i, j | 0 <= i < j < |r| ensures r[i].id != r[j].id {
          if i > 0 {
            assert r[i] == rest[i - 1] && r[j] == rest[j - 1];
          } else {
            assert r[j] == rest[j - 1];
          }
        }
      } else {
        assert r == rest;
      }
    }
  }

  /** `getContactsForDMList`: the contacts `u` exchanged direct messages with,
      newest conversation first. */
  function GetContactsForDmList(u: UserId, users: seq<User>, messages: seq<Message>): (r: Reply<seq<DmContact>>)
    ensures r.Success? && r.status == 200
    ensures Ordered(r.value, LastMessageTimeOf, Descending)
    ensures forall i, j :: 0 <= i < j < |r.value| ==> r.value[i].id != r.value[j].id
    ensures forall c :: c in r.value ==>
      && FindById(users, c.id).Some?
      && c == Project(FindById(users, c.id).value, c.lastMessageTime)
      && IsLatest(u, messages, Some(c.id), c.lastMessageTime)
    ensures forall i :: 0 <= i < |messages| && HasKnownCounterpart(u, users, messages[i]) ==>
      exists c :: c in r.value && Some(c.id) == Counterpart(u, messages[i])
  {
    var mine := Seqs.Filter(messages, m => Involves(u, m));
    var groups := Group(u, mine);
    var joined := Join(groups, users);
    var sorted := SortBy(joined, LastMessageTimeOf, Descending);
    DmListLatest(u, users, messages, mine, groups, joined);
    DmListComplete(u, users, messages, mine, groups, joined);
    JoinSound(groups, users);
    JoinDistinct(groups, users);
    PermutationKeepsInjective(joined, sorted, (c: DmContact) => c.id);
    Success(200, sorted)
  }

  /** Every joined contact carries the time of the latest message with that counterpart. */
  lemma DmListLatest(u: UserId, users: seq<User>, messages: seq<Message>,
                     mine: seq<Message>, groups: seq<Bucket>, joined: seq<DmContact>)
    requires mine == Seqs.Filter(messages, m => Involves(u, m))
    requires groups == Group(u, mine) && joined == Join(groups, users)
    ensures forall c :: c in joined ==> IsLatest(u, messages, Some(c.id), c.lastMessageTime)
  {
    JoinSound(groups, users);
    forall c | c in joined ensures IsLatest(u, messages, Some(c.id), c.lastMessageTime) {
      var i :| 0 <= i < |groups| && groups[i] == Bucket(Some(c.id), c.lastMessageTime);
      LatestOfBucket(groups, i);
      GroupIsLatest(u, mine, Some(c.id));
      IsLatestOfFilter(u, messages, mine, Some(c.id), c.lastMessageTime);
    }
  }

  /** Every counterpart that is a known user gets a joined contact. */
  lemma DmListComplete(u: UserId, users: seq<User>, messages: seq<Message>,
                       mine: seq<Message>, groups: seq<Bucket>, joined: seq<DmContact>)
    requires mine == Seqs.Filter(messages, m => Involves(u, m))
    requires groups == Group(u, mine) && joined == Join(groups, users)
    ensures forall i :: 0 <= i < |messages| && HasKnownCounterpart(u, users, messages[i]) ==>
      exists c :: c in joined && Some(c.id) == Counterpart(u, messages[i])
  {
    forall i | 0 <= i < |messages| && HasKnownCounterpart(u, users, messages[i])
      ensures exists c :: c in joined && Some(c.id) == Counterpart(u, messages[i])
    {
      var k := Counterpart(u, messages[i]);
      assert messages[i] in mine;
      GroupKeys(u, mine, k);
      var j :| 0 <= j < |groups| && groups[j].key == k;
      JoinComplete(groups, users, j);
    }
  }

  /** The latest time among the involved messages is the latest among all messages. */
  lemma IsLatestOfFilter(u: UserId, messages: seq<Message>, mine: seq<Message>, k: Option<UserId>, t: int)
    requires mine == Seqs.Filter(messages, m => Involves(u, m))
    requires IsLatest(u, mine, k, t)
    ensures IsLatest(u, messages, k, t)
  {
    var i :| 0 <= i < |mine| && Involves(u, mine[i]) && Counterpart(u, mine[i]) == k && mine[i].timestamp == t;
    assert mine[i] in messages;
    forall j | 0 <= j < |messages| && Involves(u, messages[j]) && Counterpart(u, messages[j]) == k
      ensures messages[j].timestamp <= t
    {
      assert messages[j] in mine;
    }
  }

  // ---------------------------------------------------------------------------
  // getAllContacts

  /** One option of the contact picker: `{ label, value }`. */
  datatype ContactOption = ContactOption(labelText: string, value: UserId)

  /** `user.firstName ? \`${user.firstName} ${user.lastName}\` : user.email`;
      a missing last name renders as `undefined`. */
  function Label(x: User): (r: string)
    ensures !Truthy(x.firstName) ==> r == x.email
    ensures Truthy(x.firstName) && x.lastName.Some? ==> r == x.firstName.value + " " + x.lastName.value
    ensures Truthy(x.firstName) && x.lastName.None? ==> r == x.firstName.value + " undefined"
  {
    if Truthy(x.firstName) then x.firstName.value + " " + TemplateText(x.lastName) else x.email
  }

  /** The options for every user but the requester, in store order. */
  function ContactOptions(users: seq<User>, requester: UserId): (r: seq<ContactOption>)
    ensures |r| <= |users|
    ensures forall c :: c in r ==> c.value != requester
    ensures forall c :: c in r ==> exists i :: 0 <= i < |users| && users[i].id == c.value && c.labelText == Label(users[i])
    ensures forall i :: 0 <= i < |users| && users[i].id != requester ==> ContactOption(Label(users[i]), users[i].id) in r
  {
    if |users| == 0 then []
    else
      var rest := ContactOptions(users[1..], requester);
      assert forall i :: 1 <= i < |users| ==> users[i] == users[1..][i - 1];
      assert forall c :: c in rest ==> exists i :: 0 <= i < |users| && users[i].id == c.value && c.labelText == Label(users[i]) by {
        forall c | c in rest ensures exists i :: 0 <= i < |users| && users[i].id == c.value && c.labelText == Label(users[i]) {
          var i :| 0 <= i < |users[1..]| && users[1..][i].id == c.value && c.labelText == Label(users[1..][i]);
          assert users[i + 1] == users[1..][i];
        }
      }
      (if users[0].id != requester then [ContactOption(Label(users[0]), users[0].id)] else []) + rest
  }

  /** `getAllContacts`. */
  function GetAllContacts(users: seq<User>, requester: UserId): (r: Reply<seq<ContactOption>>)
    ensures r.Success? && r.status == 200
    ensures forall c :: c in r.value ==> c.value != requester
    ensures forall x :: x in users && x.id != requester ==> ContactOption(Label(x), x.id) in r.value
  {
    Success(200, ContactOptions(users, requester))
  }
}
