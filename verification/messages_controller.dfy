/** `controllers/MessagesController.js`: the direct-conversation history
    query and the upload of message attachments. */
module MessagesController {
  import opened Base
  import opened Text
  import opened Store
  import opened Sorting
  import Seqs

  /** The query `{ $or: [{ sender: u1, recipient: u2 }, { sender: u2, recipient: u1 }] }`. */
  predicate Between(m: Message, u1: UserId, u2: UserId): (b: bool)
    ensures b <==> m.recipient.Some? && {m.sender, m.recipient.value} == {u1, u2}
  {
    (m.sender == u1 && m.recipient == Some(u2)) || (m.sender == u2 && m.recipient == Some(u1))
  }

  function Conversation(messages: seq<Message>, u1: UserId, u2: UserId): seq<Message>
  {
    Seqs.Filter(messages, m => Between(m, u1, u2))
  }

  /** `getMessages`: 400 unless both user ids are present, otherwise the
      messages between the two users sorted by `timestamp` ascending. */
  function GetMessages(messages: seq<Message>, user1: Option<UserId>, user2: Option<UserId>): (r: Reply<seq<Message>>)
    ensures r.Failure? <==> !Truthy(user1) || !Truthy(user2)
    ensures r.Failure? ==> r.status == 400 && r.message == "User IDs are required"
    ensures r.Success? ==> r.status == 200
    ensures r.Success? ==> forall m :: m in r.value <==> m in messages && Between(m, user1.value, user2.value)
    ensures r.Success? ==> forall m :: m in r.value ==> m.recipient.Some?
    ensures r.Success? ==> Ordered(r.value, TimestampOf, Ascending)
    ensures r.Success? ==> multiset(r.value) == multiset(Conversation(messages, user1.value, user2.value))
  {
    if !Truthy(user1) || !Truthy(user2) then Failure(400, "User IDs are required")
    else
      var found := Conversation(messages, user1.value, user2.value);
      var sorted := SortBy(found, TimestampOf, Ascending);
      Success(200, sorted)
  }

  /** The history is symmetric in its two participants. */
  lemma ConversationSymmetric(messages: seq<Message>, u1: UserId, u2: UserId)
    ensures forall m :: m in Conversation(messages, u1, u2) <==> m in Conversation(messages, u2, u1)
  {
  }

  /** The character class `[a-zA-Z0-9.-]` that the upload name keeps. */
  predicate KeptInUploadName(c: char)
  {
    IsLetter(c) || IsDigit(c) || c == '.' || c == '-'
  }

  /** The alphabet of a sanitised name: `[a-z0-9._-]`. */
  predicate SafeNameChar(c: char)
  {
    IsLower(c) || IsDigit(c) || c == '.' || c == '-' || c == '_'
  }

  /** `.replace(/%/g, '')`: every `%` goes, every other character stays as often as it was. */
  function RemovePercent(s: string): (r: string)
    ensures '%' !in r
    ensures |r| == |s| - Count(s, '%')
    ensures forall c :: c != '%' ==> Count(r, c) == Count(s, c)
  {
    if |s| == 0 then []
    else
      var rest := RemovePercent(s[1..]);
      CountCons(s[0], s[1..]);
      assert s == [s[0]] + s[1..];
      if s[0] == '%' then rest
      else
        CountCons(s[0], rest);
        [s[0]] + rest
  }

  /** `%`-removal works piece by piece and keeps the order of what it keeps:
      a single character goes exactly when it is `%`, and the result for a
      concatenation is the concatenation of the results. Together these fix
      the result of every string. */
  lemma {:induction false} RemovePercentAppend(a: string, b: string)
    ensures forall c :: RemovePercent([c]) == if c == '%' then [] else [c]
    ensures RemovePercent(a + b) == RemovePercent(a) + RemovePercent(b)
  {
    forall c ensures RemovePercent([c]) == if c == '%' then [] else [c] {
      assert [c][1..] == [];
    }
    if |a| == 0 {
      assert a + b == b;
    } else {
      assert (a + b)[0] == a[0];
      assert (a + b)[1..] == a[1..] + b;
      RemovePercentAppend(a[1..], b);
    }
  }

  /** `.replace(/[^a-zA-Z0-9.-]/g, '_')`. */
  function ReplaceDisallowed(s: string): (r: string)
    ensures |r| == |s|
  {
    seq(|s|, i requires 0 <= i < |s| => if KeptInUploadName(s[i]) then s[i] else '_')
  }

  /** The file-name sanitiser of `uploadFile`: drop `%`, replace every
      character outside `[a-zA-Z0-9.-]` by `_`, then lower-case. */
  function SanitizeFileName(name: string): (r: string)
    ensures |r| == |name| - Count(name, '%')
    ensures forall i :: 0 <= i < |r| ==> SafeNameChar(r[i])
  {
    Lower(ReplaceDisallowed(RemovePercent(name)))
  }

  /** The sanitised name, character by character against the `%`-free name:
      an upper-case letter becomes its lower-case form, a lower-case letter, a
      digit, `.` and `-` are kept, and anything else becomes `_`. So it is over
      `[a-z0-9._-]`, has no `%`, and is shorter than the original by the number of `%`. */
  lemma SanitizeFileNameSpec(name: string)
    ensures var r := SanitizeFileName(name);
      var p := RemovePercent(name);
      && |r| == |name| - Count(name, '%') == |p|
      && (forall i :: 0 <= i < |r| && IsUpper(p[i]) ==> r[i] as int == p[i] as int + 32)
      && (forall i :: 0 <= i < |r| && (IsLower(p[i]) || IsDigit(p[i]) || p[i] == '.' || p[i] == '-') ==> r[i] == p[i])
      && (forall i :: 0 <= i < |r| && !KeptInUploadName(p[i]) ==> r[i] == '_')
      && (forall i :: 0 <= i < |r| ==> SafeNameChar(r[i]))
      && '%' !in r
  {
    var r := SanitizeFileName(name);
    var p := RemovePercent(name);
    forall i | 0 <= i < |r| ensures SafeNameChar(r[i]) {
      assert r[i] == LowerChar(ReplaceDisallowed(p)[i]);
    }
  }

  /** Removing `%` from a `%`-free string changes nothing. */
  lemma {:induction false} RemovePercentNoop(s: string)
    requires '%' !in s
    ensures RemovePercent(s) == s
  {
    if |s| > 0 {
      assert s == [s[0]] + s[1..];
      RemovePercentNoop(s[1..]);
    }
  }

  /** Sanitising a sanitised name returns it unchanged. */
  lemma SanitizeIdempotent(name: string)
    ensures SanitizeFileName(SanitizeFileName(name)) == SanitizeFileName(name)
  {
    var r := SanitizeFileName(name);
    SanitizeFileNameSpec(name);
    RemovePercentNoop(r);
    assert ReplaceDisallowed(r) == r;
    assert Lower(r) == r;
  }

  const UploadRoot := "uploads/files/"

  /** The path an attachment is moved to: `uploads/files/<date>/<sanitised name>`. */
  function UploadPath(date: nat, name: string): string
  {
    UploadRoot + Decimal(date) + "/" + SanitizeFileName(name)
  }

  /** `uploadFile`: 400 without a file; otherwise create the dated directory,
      move the upload there under its sanitised name, and return the path. */
  function UploadFile(file: Option<UploadedFile>, date: nat): (r: (Reply<string>, seq<FsOp>))
    ensures file.None? ==> r == (Failure(400, "No file uploaded"), [])
    ensures file.Some? ==> r.0 == Success(200, UploadPath(date, file.value.originalname))
    ensures file.Some? ==> r.1 == [MakeDir(UploadRoot + Decimal(date)), Rename(file.value.path, r.0.value)]
  {
    match file
    case None => (Failure(400, "No file uploaded"), [])
    case Some(f) =>
      var fileDir := UploadRoot + Decimal(date);
      var fileName := fileDir + "/" + SanitizeFileName(f.originalname);
      (Success(200, fileName), [MakeDir(fileDir), Rename(f.path, fileName)])
  }

  /** Reads the date and the stored name back out of an upload path. */
  function ParseUploadPath(p: string): Option<(nat, string)>
  {
    if !(UploadRoot <= p) then None
    else
      match SplitFirst(p[|UploadRoot|..], '/')
      case None => None
      case Some((date, name)) => if AllDigits(date) then Some((ParseDecimal(date), name)) else None
  }

  /** The upload path determines its date and its sanitised name: the
      sanitised name contains no `/`, so the first `/` after the date splits them. */
  lemma UploadPathRoundTrip(date: nat, name: string)
    ensures ParseUploadPath(UploadPath(date, name)) == Some((date, SanitizeFileName(name)))
  {
    var p := UploadPath(date, name);
    var d := Decimal(date);
    var safe := SanitizeFileName(name);
    SanitizeFileNameSpec(name);
    assert '/' !in d by {
      forall i | 0 <= i < |d| ensures d[i] != '/' { assert IsDigit(d[i]); }
    }
    assert p[|UploadRoot|..] == d + ['/'] + safe;
    SplitFirstOfJoin(d, '/', safe);
    ParseDecimalOfDecimal(date);
  }
}
