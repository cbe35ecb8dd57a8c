/** The two persisted entities, `User` and `Upload`, and the constraints the
    database schema puts on their tables (generated uuid primary keys, unique
    columns, the owner foreign key with cascading delete). */
module Entities {
  import opened Strings

  /** A row of the user table. `password` holds the bcrypt hash. */
  datatype User = User(id: string, email: string, password: string)

  /** A row of the upload table; `labelText` is the `label` column and `owner`
      the foreign key to the owning user. */
  datatype Upload = Upload(id: string, key: string, url: string, labelText: string, owner: string)

  /** What the serialiser sends to clients: `password` and `uploads` of a user,
      `key` and `user` of an upload are excluded from plain output. */
  datatype PlainUser = PlainUser(id: string, email: string)
  datatype PlainUpload = PlainUpload(id: string, url: string, labelText: string)

  function UserToPlain(u: User): PlainUser { PlainUser(u.id, u.email) }
  function UploadToPlain(u: Upload): PlainUpload { PlainUpload(u.id, u.url, u.labelText) }

  /** The plain form of a user does not depend on the password hash. */
  lemma PlainUserHidesPassword(u: User, otherPassword: string)
    ensures UserToPlain(u) == UserToPlain(u.(password := otherPassword))
    ensures UserToPlain(u).id == u.id && UserToPlain(u).email == u.email
  {
  }

  /** The plain form of an upload depends neither on the object key nor on the
      owner. */
  lemma PlainUploadHidesKeyAndOwner(u: Upload, otherKey: string, otherOwner: string)
    ensures UploadToPlain(u) == UploadToPlain(u.(key := otherKey, owner := otherOwner))
    ensures UploadToPlain(u).id == u.id && UploadToPlain(u).url == u.url && UploadToPlain(u).labelText == u.labelText
  {
  }

  // ---------------------------------------------------------------------------
  // Generated identifiers

  predicate IsHexDigit(c: char) {
    '0' <= c <= '9' || 'a' <= c <= 'f'
  }

  /** The textual form of a uuid: 8-4-4-4-12 lower-case hex digits. */
  predicate IsUuid(s: string) {
    && |s| == 36
    && (forall i :: 0 <= i < 36 ==> (if i in {8, 13, 18, 23} then s[i] == '-' else IsHexDigit(s[i])))
  }

  /** A uuid contains neither `/` nor `.`, so it is a single path segment and a
      single file-name segment. */
  lemma UuidIsOneSegment(s: string)
    requires IsUuid(s)
    ensures '/' !in s && '.' !in s
  {
    forall i | 0 <= i < |s|
      ensures s[i] != '/' && s[i] != '.'
    {
      if i !in {8, 13, 18, 23} {
        assert IsHexDigit(s[i]);
      }
    }
  }

  // ---------------------------------------------------------------------------
  // Table constraints

  /** The user table keyed by primary key: ids are generated uuids and
      `email` is a unique column. */
  predicate UsersValid(users: map<string, User>) {
    && (forall id :: id in users ==> users[id].id == id && IsUuid(id))
    && (forall a, b :: a in users && b in users && users[a].email == users[b].email ==> a == b)
  }

  /** The upload table keyed by primary key: ids are generated uuids, and
      `key`, `url` and `label` are each unique across the whole table (not per
      owner). */
  predicate UploadColumnsUnique(uploads: map<string, Upload>) {
    && (forall id :: id in uploads ==> uploads[id].id == id && IsUuid(id))
    && (forall a, b :: a in uploads && b in uploads && uploads[a].key == uploads[b].key ==> a == b)
    && (forall a, b :: a in uploads && b in uploads && uploads[a].url == uploads[b].url ==> a == b)
    && (forall a, b :: a in uploads && b in uploads && uploads[a].labelText == uploads[b].labelText ==> a == b)
  }

  /** The upload table's constraints, and every row's owner exists in the user
      table. */
  predicate UploadsValid(uploads: map<string, Upload>, users: map<string, User>) {
    && UploadColumnsUnique(uploads)
    && (forall id :: id in uploads ==> uploads[id].owner in users)
  }

  /** The uploads of one user (the `user.uploads` relation). */
  function UploadsOf(uploads: map<string, Upload>, owner: string): set<Upload> {
    set u | u in uploads.Values && u.owner == owner
  }

  /** Every upload row's key lies in its owner's namespace, as the upload
      service writes it (`<owner>/<file name>`). */
  ghost predicate KeysNamespaced(uploads: map<string, Upload>) {
    forall id :: id in uploads ==> StartsWith(uploads[id].key, uploads[id].owner + "/")
  }

  /** Removing a user row cascades to the rows of its uploads. */
  function CascadeRemoveUser(users: map<string, User>, uploads: map<string, Upload>, id: string)
    : (r: (map<string, User>, map<string, Upload>))
    requires UsersValid(users) && UploadsValid(uploads, users)
    ensures id !in r.0 && r.0.Keys == users.Keys - {id}
    ensures forall k :: k in r.0 ==> r.0[k] == users[k]
    ensures forall k :: k in r.1 <==> k in uploads && uploads[k].owner != id
    ensures forall k :: k in r.1 ==> r.1[k] == uploads[k]
    ensures UsersValid(r.0) && UploadsValid(r.1, r.0)
    ensures UploadsOf(r.1, id) == {}
  {
    var users' := map k | k in users && k != id :: users[k];
    var uploads' := map k | k in uploads && uploads[k].owner != id :: uploads[k];
    assert forall u :: u in uploads'.Values ==> exists k :: k in uploads' && uploads'[k] == u;
    (users', uploads')
  }
}
