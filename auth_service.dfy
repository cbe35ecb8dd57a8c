/** `AuthService`: sign-up, sign-in, access tokens and account deletion. The
    bcrypt primitives and the JWT signer are inputs (`hash`, `compare`,
    `sign`), as are the generated user id and the faults of the stores. */
module Auth {
  import opened Common
  import opened Entities
  import opened AwsS3
  import opened Repositories

  /** The JWT payload: the user id and nothing else. */
  datatype JwtPayload = JwtPayload(id: string)

  /** The `{ accessToken }` response body. */
  datatype AccessTokenResponse = AccessTokenResponse(accessToken: string)

  const InvalidEmail := "Invalid email"
  const InvalidCredentials := "Invalid email or password"

  /** `getAccessToken`: sign the payload `{ id: uid }`. */
  function GetAccessToken(uid: string, sign: JwtPayload -> string): string {
    sign(JwtPayload(uid))
  }

  /** Whoever verifies a token with the signer's inverse reads back exactly the
      user id it was issued for. */
  lemma TokenCarriesId(uid: string, sign: JwtPayload -> string, verify: string -> JwtPayload)
    requires forall p :: verify(sign(p)) == p
    ensures verify(GetAccessToken(uid, sign)) == JwtPayload(uid)
    ensures verify(GetAccessToken(uid, sign)).id == uid
  {
  }

  /** `signin`: a token for the user with that email if `compare` accepts the
      password against the stored hash; otherwise one and the same
      Unauthorized error, whether the email is unknown or the password wrong. */
  function Signin(users: map<string, User>, email: string, password: string,
                  compare: (string, string) -> bool, sign: JwtPayload -> string)
    : (r: Result<AccessTokenResponse>)
    requires UsersValid(users)
    ensures r.Ok? <==> exists id :: id in users && users[id].email == email && compare(password, users[id].password)
    ensures r.Ok? ==> exists id :: id in users && users[id].email == email
                                && r.value == AccessTokenResponse(GetAccessToken(id, sign))
    ensures r.Err? ==> r.error == Unauthorized(InvalidCredentials)
  {
    match UserWithEmail(users, email)
    case Some(user) =>
      if compare(password, user.password) then Ok(AccessTokenResponse(GetAccessToken(user.id, sign)))
      else Err(Unauthorized(InvalidCredentials))
    case None => Err(Unauthorized(InvalidCredentials))
  }

  /** An unknown email and a wrong password are indistinguishable to the
      caller. */
  lemma SigninFailuresAlike(users: map<string, User>, unknown: string, email: string,
                            password1: string, password2: string,
                            compare: (string, string) -> bool, sign: JwtPayload -> string)
    requires UsersValid(users)
    requires forall id :: id in users ==> users[id].email != unknown
    requires forall id :: id in users && users[id].email == email ==> !compare(password2, users[id].password)
    ensures Signin(users, unknown, password1, compare, sign) == Signin(users, email, password2, compare, sign)
  {
  }

  /** After a sign-up stores `hash(password, salt)`, signing in with the same
      email and password yields a token for the new id, provided `compare`
      accepts a password against its own hash. */
  lemma {:induction false} SigninAfterSignup(users: map<string, User>, id: string, email: string, password: string,
                                             salt: string, hash: (string, string) -> string,
                                             compare: (string, string) -> bool, sign: JwtPayload -> string)
    requires UsersValid(users)
    requires UserInsertError(users, User(id, email, hash(password, salt)), None).None?
    requires IsUuid(id)
    requires compare(password, hash(password, salt))
    ensures UsersValid(users[id := User(id, email, hash(password, salt))])
    ensures Signin(users[id := User(id, email, hash(password, salt))], email, password, compare, sign)
         == Ok(AccessTokenResponse(GetAccessToken(id, sign)))
  {
    var users' := users[id := User(id, email, hash(password, salt))];
    assert users'[id].email == email;
    var found := UserWithEmail(users', email);
    assert found.Some?;
    assert found.value.id == id;
  }

  class AuthService {
    const s3: AwsS3Service
    const db: Database

    constructor (s3: AwsS3Service, db: Database)
      ensures this.s3 == s3 && this.db == db
    {
      this.s3 := s3;
      this.db := db;
    }

    /** `signup`: store the user with `hash(password, salt)` (never the plain
        password) under the generated id; an insert error is an internal
        error, a unique violation a conflict, and success answers a token
        for the new id. */
    method Signup(email: string, password: string, salt: string, hash: (string, string) -> string,
                  sign: JwtPayload -> string, id: string, fault: Option<string>)
      returns (r: Result<AccessTokenResponse>)
      requires db.Valid() && IsUuid(id)
      modifies db
      ensures db.Valid() && db.uploads == old(db.uploads)
      ensures var err := UserInsertError(old(db.users), User(id, email, hash(password, salt)), fault);
              && (r.Ok? <==> err.None?)
              && (err == Some(UniqueViolation) ==> r == Err(Conflict(InvalidEmail)))
              && (err.Some? && err != Some(UniqueViolation) ==> r == Err(InternalServerError))
      ensures r.Ok? ==>
                && r.value == AccessTokenResponse(GetAccessToken(id, sign))
                && db.users == old(db.users)[id := User(id, email, hash(password, salt))]
      ensures r.Err? ==> db.users == old(db.users)
    {
      var hashedPassword := hash(password, salt);
      var status, user := db.CreateUser(email, hashedPassword, id, fault);
      if status == ERROR {
        return Err(InternalServerError);
      }
      if status == CONFLICT {
        return Err(Conflict(InvalidEmail));
      }
      return Ok(AccessTokenResponse(GetAccessToken(user.value.id, sign)));
    }

    /** `deleteCurrentUser`: purge the user's namespace `<id>/` from the bucket
        first and only then remove the user row, which cascades to the user's
        upload rows. If the purge fails the error propagates and no row is
        removed. */
    method DeleteCurrentUser(user: User, fault: Option<RoundFault>) returns (r: Outcome)
      requires db.Valid()
      modifies s3, db
      ensures db.Valid()
      ensures WithoutPrefix(s3.objects, user.id + "/") == WithoutPrefix(old(s3.objects), user.id + "/")
      ensures forall k :: k in s3.objects ==> k in old(s3.objects) && s3.objects[k] == old(s3.objects)[k]
      ensures var pages := Pages(|PrefixedKeys(old(s3.objects), user.id + "/")|);
              r.Pass? <==> fault.None? || fault.value.round >= (if pages == 0 then 1 else pages)
      ensures r.Fail? ==>
                && r.error == Uncaught(fault.value.error.code)
                && db.users == old(db.users) && db.uploads == old(db.uploads)
      ensures r.Pass? ==>
                && s3.objects == WithoutPrefix(old(s3.objects), user.id + "/")
                && (db.users, db.uploads) == CascadeRemoveUser(old(db.users), old(db.uploads), user.id)
      ensures r.Pass? && KeysNamespaced(old(db.uploads)) ==>
                forall u :: u in UploadsOf(old(db.uploads), user.id) ==> u.key !in s3.objects
    {
      var purged, _, _ := s3.EmptyDirectory(user.id + "/", fault);
      if purged.Fail? {
        return purged;
      }
      db.RemoveUser(user);
      return Pass;
    }
  }
}
