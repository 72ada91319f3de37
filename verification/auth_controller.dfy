/** `controllers/AuthController.js`: sign-up, login, and profile updates.
    Token signing (jsonwebtoken) is symbolic: a token records what was signed.
    Password hashing and comparison (bcrypt) are the oracles `hash` and `compare`. */
module AuthController {
  import opened Base
  import opened Text
  import opened UserModel

  /** Token lifetime: three days, in seconds. */
  const MaxAge: nat := 3 * 24 * 60 * 60

  /** A signed JWT: the claims, the secret it was signed with, and `expiresIn` in seconds. */
  datatype Token = Token(email: string, userId: UserId, secret: string, expiresIn: nat)

  /** The `jwt` cookie; `maxAge` is in milliseconds, as Express expects. */
  datatype Cookie = Cookie(name: string, token: Token, maxAge: nat, secure: bool, sameSite: string, httpOnly: bool)

  /** `createToken`: throws when `JWT_KEY` is unset or empty. */
  function CreateToken(email: string, userId: UserId, secret: Option<string>): (r: Option<Token>)
    ensures r.None? <==> !Truthy(secret)
    ensures r.Some? ==> r.value == Token(email, userId, secret.value, MaxAge)
  {
    if !Truthy(secret) then None else Some(Token(email, userId, secret.value, MaxAge))
  }

  /** The options of `res.cookie("jwt", token, ...)`. */
  function SessionCookie(t: Token): (c: Cookie)
    ensures c.name == "jwt" && c.token == t
    ensures t.expiresIn == MaxAge ==> c.maxAge == 1000 * t.expiresIn
    ensures c.secure && c.httpOnly && c.sameSite == "none"
  {
    Cookie("jwt", t, MaxAge * 1000, true, "none", true)
  }

  /** The cookie lives exactly as long as the token: three days, once in
      seconds and once in milliseconds. */
  lemma CookieLifetime(email: string, userId: UserId, secret: Option<string>)
    requires Truthy(secret)
    ensures var t := CreateToken(email, userId, secret).value;
      t.expiresIn == 259200 && SessionCookie(t).maxAge == t.expiresIn * 1000 == 259200000
  {
  }

  /** A successful sign-up or login: the user summary, the token in the body, and the cookie. */
  datatype Session = Session(id: UserId, email: string, profileSetup: Option<bool>, token: Token, cookie: Cookie)

  datatype Credentials = Credentials(email: Option<string>, password: Option<string>)

  /** The token lifetime of a session agrees with its cookie. */
  predicate Consistent(s: Session)
  {
    s.token.expiresIn == MaxAge && s.cookie == SessionCookie(s.token) && s.cookie.maxAge == 1000 * s.token.expiresIn
  }

  /** The record `User.create` builds for a sign-up. */
  function NewUser(id: UserId, email: string, password: string): User
  {
    User(id, email, password, None, None, None, None, Some(false))
  }

  /** `signup`: 400 without email or password; 400 when the email (or the
      generated id) is taken, Mongo's duplicate-key error 11000; otherwise the
      user is stored with a hashed password and `profileSetup: false`, and the
      reply is 201 with a session, or 500 if no token can be signed, by which
      time the user is already stored. */
  function Signup(users: seq<User>, body: Credentials, secret: Option<string>, id: UserId, hash: string -> string): (r: (seq<User>, Reply<Session>))
    ensures !Truthy(body.email) || !Truthy(body.password) ==> r == (users, Failure(400, "Email and Password is required"))
    ensures Truthy(body.email) && Truthy(body.password) && FindByEmail(users, body.email.value).Some? ==>
      r == (users, Failure(400, "User already exists"))
    ensures Truthy(body.email) && Truthy(body.password) && FindById(users, id).Some? ==>
      r == (users, Failure(400, "User already exists"))
    ensures Truthy(body.email) && Truthy(body.password) &&
            FindByEmail(users, body.email.value).None? && FindById(users, id).None? ==>
      && r.0 == users + [NewUser(id, body.email.value, hash(body.password.value))]
      && (r.1.Success? <==> Truthy(secret))
    ensures r.1.Success? ==> r.1.status == 201 && Consistent(r.1.value) && r.1.value.profileSetup == Some(false)
    ensures r.1.Success? ==>
      && r.1.value.id == id && Some(r.1.value.email) == body.email
      && r.1.value.token == Token(body.email.value, id, secret.value, MaxAge)
    ensures r.0 != users ==>
      r.0 == users + [NewUser(id, body.email.value, hash(body.password.value))]
    ensures r.0 != users ==> (r.1.Success? <==> Truthy(secret))
    ensures r.1.Failure? && r.1.status != 400 ==> r.1 == Failure(500, "Internal server error")
    ensures WellFormed(users) && (forall p :: hash(p) != "") ==> WellFormed(r.0)
  {
    if !Truthy(body.email) || !Truthy(body.password) then (users, Failure(400, "Email and Password is required"))
    else
      var doc := NewDoc(NewUser(id, body.email.value, body.password.value));
      if FindByEmail(users, body.email.value).Some? || FindById(users, id).Some? then
        (users, Failure(400, "User already exists"))
      else
        var saved := Save(doc, hash).value;
        var users' := users + [saved];
        assert WellFormed(users) && (forall p :: hash(p) != "") ==> WellFormed(users');
        match CreateToken(saved.email, saved.id, secret)
        case None => (users', Failure(500, "Internal server error"))
        case Some(t) => (users', Success(201, Session(saved.id, saved.email, saved.profileSetup, t, SessionCookie(t))))
  }

  /** `login`: 400 without email or password, 401 for an unknown email or a
      wrong password, 500 when no token can be signed, else 200. */
  function Login(users: seq<User>, body: Credentials, secret: Option<string>, compare: (string, string) -> bool): (r: Reply<Session>)
    ensures !Truthy(body.email) || !Truthy(body.password) ==> r == Failure(400, "Email and Password are required")
    ensures Truthy(body.email) && Truthy(body.password) && FindByEmail(users, body.email.value).None? ==>
      r == Failure(401, "Invalid credentials: User not found")
    ensures Truthy(body.email) && Truthy(body.password) && FindByEmail(users, body.email.value).Some? ==>
      var x := FindByEmail(users, body.email.value).value;
      !compare(body.password.value, x.password) ==> r == Failure(401, "Invalid credentials: Wrong password")
    ensures Truthy(body.email) && Truthy(body.password) && FindByEmail(users, body.email.value).Some? ==>
      var x := FindByEmail(users, body.email.value).value;
      compare(body.password.value, x.password) ==>
      if Truthy(secret) then r.Success? else r == Failure(500, "Internal server error")
    ensures r.Failure? ==> r.status in {400, 401, 500}
    ensures r.Success? ==> Truthy(body.email) && Truthy(body.password) && FindByEmail(users, body.email.value).Some?
    ensures r.Success? ==>
      var x := FindByEmail(users, body.email.value).value;
      && r.status == 200
      && Consistent(r.value)
      && r.value.id == x.id && r.value.email == x.email && r.value.profileSetup == x.profileSetup
      && r.value.token == Token(x.email, x.id, secret.value, MaxAge)
      && compare(body.password.value, x.password)
      && Truthy(secret)
  {
    if !Truthy(body.email) || !Truthy(body.password) then Failure(400, "Email and Password are required")
    else
      match FindByEmail(users, body.email.value)
      case None => Failure(401, "Invalid credentials: User not found")
      case Some(x) =>
        if !compare(body.password.value, x.password) then Failure(401, "Invalid credentials: Wrong password")
        else
          match CreateToken(x.email, x.id, secret)
          case None => Failure(500, "Internal server error")
          case Some(t) => Success(200, Session(x.id, x.email, x.profileSetup, t, SessionCookie(t)))
  }

  datatype ProfileBody = ProfileBody(
    firstName: Option<string>, lastName: Option<string>, profileImage: Option<string>, selectedColor: Option<int>)

  /** The reply of `updateProfile`. */
  datatype Profile = Profile(
    id: UserId, email: string, firstName: Option<string>, lastName: Option<string>, color: Option<int>, profileSetup: Option<bool>)

  /** `updateProfile`: 400 unless both names are given; otherwise
      `findByIdAndUpdate` sets the names, `color` from `selectedColor` and
      `profileSetup: true`. The body's `profileImage` is ignored. An unknown
      user yields `null`, whose dereference ends in 500. */
  function UpdateProfile(users: seq<User>, userId: UserId, body: ProfileBody): (r: (seq<User>, Reply<Profile>))
    ensures !Truthy(body.firstName) || !Truthy(body.lastName) ==> r == (users, Failure(400, "All fields are required"))
    ensures Truthy(body.firstName) && Truthy(body.lastName) && FindById(users, userId).None? ==>
      r == (users, Failure(500, "Internal server error"))
    ensures Truthy(body.firstName) && Truthy(body.lastName) && FindById(users, userId).Some? ==> r.1.Success?
    ensures r.1.Success? ==>
      var x := FindById(users, userId).value;
      var y := x.(firstName := body.firstName, lastName := body.lastName,
                  color := if body.selectedColor.Some? then body.selectedColor else x.color,
                  profileSetup := Some(true));
      && r.0 == Replace(users, y)
      && r.1 == Success(200, Profile(x.id, x.email, body.firstName, body.lastName, y.color, Some(true)))
    ensures WellFormed(users) ==> WellFormed(r.0)
  {
    if !Truthy(body.firstName) || !Truthy(body.lastName) then (users, Failure(400, "All fields are required"))
    else
      match FindById(users, userId)
      case None => (users, Failure(500, "Internal server error"))
      case Some(x) =>
        var color := if body.selectedColor.Some? then body.selectedColor else x.color;
        var y := x.(firstName := body.firstName, lastName := body.lastName, color := color, profileSetup := Some(true));
        assert WellFormed(users) ==> WellFormed(Replace(users, y)) by {
          if WellFormed(users) {
            var k :| 0 <= k < |users| && users[k] == x;
            ReplaceKeepsWellFormed(users, y);
          }
        }
        (Replace(users, y), Success(200, Profile(y.id, y.email, y.firstName, y.lastName, y.color, y.profileSetup)))
  }

  const ProfileRoot := "uploads/profiles/"

  /** `"uploads/profiles/" + date + "-" + originalname`. */
  function ProfileImagePath(date: nat, name: string): string
  {
    ProfileRoot + Decimal(date) + "-" + name
  }

  /** Reads the date and the original name back out of a profile-image path. */
  function ParseProfileImagePath(p: string): Option<(nat, string)>
  {
    if !(ProfileRoot <= p) then None
    else
      match SplitFirst(p[|ProfileRoot|..], '-')
      case None => None
      case Some((date, name)) => if AllDigits(date) then Some((ParseDecimal(date), name)) else None
  }

  /** The stored path determines the upload date and the original file name,
      whatever the name contains: the date's digits hold no `-`. */
  lemma ProfileImagePathRoundTrip(date: nat, name: string)
    ensures ParseProfileImagePath(ProfileImagePath(date, name)) == Some((date, name))
  {
    var d := Decimal(date);
    assert '-' !in d by {
      forall i | 0 <= i < |d| ensures d[i] != '-' { assert IsDigit(d[i]); }
    }
    assert ProfileImagePath(date, name)[|ProfileRoot|..] == d + ['-'] + name;
    SplitFirstOfJoin(d, '-', name);
    ParseDecimalOfDecimal(date);
  }

  /** `addProfileImage`: 400 without a file; otherwise the upload is moved to
      its dated path and recorded as the user's `profileImage`. For an unknown
      user the move has happened but the reply is 500. */
  function AddProfileImage(users: seq<User>, userId: UserId, file: Option<UploadedFile>, date: nat): (r: (seq<User>, Reply<string>, seq<FsOp>))
    ensures file.None? ==> r == (users, Failure(400, "No file uploaded"), [])
    ensures file.Some? ==> r.2 == [Rename(file.value.path, ProfileImagePath(date, file.value.originalname))]
    ensures file.Some? && FindById(users, userId).None? ==> r.0 == users && r.1 == Failure(500, "Internal server error")
    ensures file.Some? && FindById(users, userId).Some? ==> r.1.Success?
    ensures r.1.Success? ==>
      && r.1 == Success(200, ProfileImagePath(date, file.value.originalname))
      && r.0 == Replace(users, FindById(users, userId).value.(profileImage := Some(r.1.value)))
    ensures WellFormed(users) ==> WellFormed(r.0)
  {
    match file
    case None => (users, Failure(400, "No file uploaded"), [])
    case Some(f) =>
      var fileName := ProfileImagePath(date, f.originalname);
      var ops := [Rename(f.path, fileName)];
      match FindById(users, userId)
      case None => (users, Failure(500, "Internal server error"), ops)
      case Some(x) =>
        var y := x.(profileImage := Some(fileName));
        assert WellFormed(users) ==> WellFormed(Replace(users, y)) by {
          if WellFormed(users) {
            var k :| 0 <= k < |users| && users[k] == x;
            ReplaceKeepsWellFormed(users, y);
          }
        }
        (Replace(users, y), Success(200, y.profileImage.value), ops)
  }

  /** `deleteProfileImage`: 404 for an unknown user; otherwise unlink the
      image file if one is recorded, clear `profileImage` and save. The save
      hook leaves the password alone because it was not modified. */
  function DeleteProfileImage(users: seq<User>, userId: UserId, hash: string -> string): (r: (seq<User>, Reply<string>, seq<FsOp>))
    ensures FindById(users, userId).None? ==> r == (users, Failure(404, "User not found"), [])
    ensures FindById(users, userId).Some? ==>
      var x := FindById(users, userId).value;
      r.2 == if Truthy(x.profileImage) then [Unlink(x.profileImage.value)] else []
    ensures r.1.Success? ==>
      && r.1 == Success(200, "Profile image deleted successfully")
      && r.0 == Replace(users, FindById(users, userId).value.(profileImage := None))
    ensures WellFormed(users) && FindById(users, userId).Some? ==> r.1.Success? && WellFormed(r.0)
  {
    match FindById(users, userId)
    case None => (users, Failure(404, "User not found"), [])
    case Some(x) =>
      var ops := if Truthy(x.profileImage) then [Unlink(x.profileImage.value)] else [];
      match Save(SetProfileImage(Loaded(x), None), hash)
      case None => (users, Failure(500, "Internal server error"), ops)
      case Some(saved) =>
        assert WellFormed(users) ==> WellFormed(Replace(users, saved)) by {
          if WellFormed(users) {
            var k :| 0 <= k < |users| && users[k] == x;
            ReplaceKeepsWellFormed(users, saved);
          }
        }
        (Replace(users, saved), Success(200, "Profile image deleted successfully"), ops)
  }
}
