/** The User record of `models/UserModel.js`, its save hook, and the user
    collection as a sequence of records. */
module UserModel {
  import opened Base

  /** A stored user. Only `email` and `password` are required by the schema;
      `color` is numeric. */
  datatype User = User(
    id: UserId,
    email: string,
    password: string,
    firstName: Option<string>,
    lastName: Option<string>,
    profileImage: Option<string>,
    color: Option<int>,
    profileSetup: Option<bool>)

  /** A document in memory together with Mongoose's dirty flag for `password`. */
  datatype UserDoc = UserDoc(user: User, passwordModified: bool)

  /** A freshly constructed document: every path it sets counts as modified. */
  function NewDoc(u: User): UserDoc
  {
    UserDoc(u, true)
  }

  /** A document just read from the collection: nothing is modified yet. */
  function Loaded(u: User): UserDoc
  {
    UserDoc(u, false)
  }

  /** Assigning `profileImage` changes that field only and leaves the password's dirty flag as it was. */
  function SetProfileImage(doc: UserDoc, image: Option<string>): (r: UserDoc)
    ensures r.user.profileImage == image
    ensures r.user.(profileImage := doc.user.profileImage) == doc.user
    ensures r.passwordModified == doc.passwordModified
    ensures r.user.password == doc.user.password
  {
    doc.(user := doc.user.(profileImage := image))
  }

  /** The schema's `required` rules: a required string must be present and non-empty. */
  predicate MeetsSchema(u: User)
  {
    u.email != "" && u.password != ""
  }

  /** `save()`: validation, then the `pre("save")` hook, which replaces the
      password by its hash only when the password path was modified. The salted
      bcrypt hash is the oracle `hash`. */
  function Save(doc: UserDoc, hash: string -> string): (r: Option<User>)
    ensures r.Some? <==> MeetsSchema(doc.user)
    ensures r.Some? ==> r.value.(password := doc.user.password) == doc.user
    ensures r.Some? ==> r.value.password == if doc.passwordModified then hash(doc.user.password) else doc.user.password
  {
    if !MeetsSchema(doc.user) then None
    else if !doc.passwordModified then Some(doc.user)
    else Some(doc.user.(password := hash(doc.user.password)))
  }

  /** The record with id `id`, if the collection holds one. */
  function FindById(users: seq<User>, id: UserId): (r: Option<User>)
    ensures r.None? <==> forall i :: 0 <= i < |users| ==> users[i].id != id
    ensures r.Some? ==> r.value in users && r.value.id == id
  {
    if |users| == 0 then None
    else if users[0].id == id then Some(users[0])
    else FindById(users[1..], id)
  }

  /** `findOne({ email })`. */
  function FindByEmail(users: seq<User>, email: string): (r: Option<User>)
    ensures r.None? <==> forall i :: 0 <= i < |users| ==> users[i].email != email
    ensures r.Some? ==> r.value in users && r.value.email == email
  {
    if |users| == 0 then None
    else if users[0].email == email then Some(users[0])
    else FindByEmail(users[1..], email)
  }

  /** Writes `u` over the record that has its id; the others are untouched. */
  function Replace(users: seq<User>, u: User): (r: seq<User>)
    ensures |r| == |users|
    ensures forall i :: 0 <= i < |users| ==> r[i] == if users[i].id == u.id then u else users[i]
  {
    seq(|users|, i requires 0 <= i < |users| => if users[i].id == u.id then u else users[i])
  }

  /** Mongo's `_id` index. */
  predicate UniqueIds(users: seq<User>)
  {
    forall i, j :: 0 <= i < j < |users| ==> users[i].id != users[j].id
  }

  /** The `unique: true` index on `email`. */
  predicate UniqueEmails(users: seq<User>)
  {
    forall i, j :: 0 <= i < j < |users| ==> users[i].email != users[j].email
  }

  /** The invariant the collection keeps: both indexes hold and every record
      satisfies the schema. */
  predicate WellFormed(users: seq<User>)
  {
    UniqueIds(users) && UniqueEmails(users) && forall i :: 0 <= i < |users| ==> MeetsSchema(users[i])
  }

  /** Saving a document that was read back after a save does not hash the password again. */
  lemma NoDoubleHash(doc: UserDoc, hash: string -> string)
    requires MeetsSchema(doc.user) && hash(doc.user.password) != ""
    ensures Save(Loaded(Save(doc, hash).value), hash) == Save(doc, hash)
  {
  }

  /** Replacing a record by one with the same id and email keeps the collection well formed. */
  lemma ReplaceKeepsWellFormed(users: seq<User>, u: User)
    requires WellFormed(users) && MeetsSchema(u)
    requires FindById(users, u.id).Some? && FindById(users, u.id).value.email == u.email
    ensures WellFormed(Replace(users, u))
  {
    var r := Replace(users, u);
    forall i, j | 0 <= i < j < |r| ensures r[i].id != r[j].id && r[i].email != r[j].email {
      var old_ := FindById(users, u.id).value;
      var k :| 0 <= k < |users| && users[k] == old_;
      assert users[k].id == u.id;
    }
  }
}
