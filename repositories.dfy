/** The metadata store: the user table and the upload table of one PostgreSQL
    database, reached through `UserRepository` and `UploadRepository`. A save
    either succeeds or fails with a SQLSTATE code; the repositories turn the
    code into a `DBSavedStatus`. A failure the model does not derive from the
    tables (a lost connection, say) is an input (`fault`). */
module Repositories {
  import opened Common
  import opened Strings
  import opened Sorting
  import opened Entities
  import opened UploadsFilter

  /** SQLSTATE `unique_violation`. */
  const UniqueViolation := "23505"
  /** SQLSTATE `foreign_key_violation`. */
  const ForeignKeyViolation := "23503"

  /** The catch block of both repositories: `23505` is a conflict, any other
      error code a generic error. */
  function ClassifySaveError(code: string): (s: DBSavedStatus)
    ensures s != SUCCESS
    ensures s == CONFLICT <==> code == UniqueViolation
  {
    if code == UniqueViolation then CONFLICT else ERROR
  }

  /** The error the database raises on inserting user `u`, if any: an
      outside fault first, then the primary key and the unique `email`. */
  function UserInsertError(users: map<string, User>, u: User, fault: Option<string>): Option<string> {
    if fault.Some? then fault
    else if u.id in users || (exists id :: id in users && users[id].email == u.email) then Some(UniqueViolation)
    else None
  }

  /** The error the database raises on inserting upload `u`, if any: an
      outside fault first, then the unique columns (id, key, url, label), then
      the owner foreign key. */
  function UploadInsertError(uploads: map<string, Upload>, users: map<string, User>, u: Upload,
                             fault: Option<string>): Option<string>
  {
    if fault.Some? then fault
    else if u.id in uploads || (exists id :: id in uploads && uploads[id].key == u.key)
         || (exists id :: id in uploads && uploads[id].url == u.url)
         || (exists id :: id in uploads && uploads[id].labelText == u.labelText)
    then Some(UniqueViolation)
    else if u.owner !in users then Some(ForeignKeyViolation)
    else None
  }

  /** An insert the database accepts keeps the user table's constraints. */
  lemma UserInsertKeepsValid(users: map<string, User>, u: User, fault: Option<string>)
    requires UsersValid(users) && IsUuid(u.id)
    requires UserInsertError(users, u, fault).None?
    ensures UsersValid(users[u.id := u])
  {
  }

  /** An insert the database accepts keeps the upload table's constraints. */
  lemma UploadInsertKeepsValid(uploads: map<string, Upload>, users: map<string, User>, u: Upload,
                               fault: Option<string>)
    requires UploadsValid(uploads, users) && IsUuid(u.id)
    requires UploadInsertError(uploads, users, u, fault).None?
    ensures UploadsValid(uploads[u.id := u], users)
  {
  }

  /** `findOne({ email })`: the user with that email, if any. */
  function UserWithEmail(users: map<string, User>, email: string): (r: Option<User>)
    requires UsersValid(users)
    ensures r.Some? ==> r.value.id in users && users[r.value.id] == r.value && r.value.email == email
    ensures r.None? ==> forall id :: id in users ==> users[id].email != email
  {
    if exists id :: id in users && users[id].email == email then
      var id :| id in users && users[id].email == email;
      Some(users[id])
    else None
  }

  /** `findOne({ id, user })`: the upload with that id, only if `owner` owns it. */
  function UploadOwnedBy(uploads: map<string, Upload>, id: string, owner: string): (r: Option<Upload>)
    ensures r.Some? <==> id in uploads && uploads[id].owner == owner
    ensures r.Some? ==> r.value == uploads[id]
  {
    if id in uploads && uploads[id].owner == owner then Some(uploads[id]) else None
  }

  // ---------------------------------------------------------------------------
  // The uploads listing

  /** `{ total, data }` of a paginated query. */
  datatype RecordsList = RecordsList(total: nat, data: seq<Upload>)

  const DefaultTake := 50

  /** The `where` of the listing: owned by `owner` and, when `search` is a
      non-empty string, with `search` inside the label (`LIKE '%search%'`). */
  predicate MatchesFilter(u: Upload, owner: string, search: Option<string>) {
    && u.owner == owner
    && (search.Some? && search.value != "" ==> Contains(u.labelText, search.value))
  }

  function Matching(uploads: map<string, Upload>, owner: string, search: Option<string>): set<Upload> {
    set u | u in uploads.Values && MatchesFilter(u, owner, search)
  }

  function LabelOf(u: Upload): string { u.labelText }

  lemma LabelsInjective(uploads: map<string, Upload>, owner: string, search: Option<string>)
    requires UploadColumnsUnique(uploads)
    ensures InjectiveOn(Matching(uploads, owner, search), LabelOf)
  {
    forall u, v | u in Matching(uploads, owner, search) && v in Matching(uploads, owner, search)
                  && LabelOf(u) == LabelOf(v)
      ensures u == v
    {
      var a :| a in uploads && uploads[a] == u;
      var b :| b in uploads && uploads[b] == v;
    }
  }

  /** `getUploads`: the owner's matching uploads ordered by label, `skip`
      (default 0) dropped and at most `take` (default 50) kept; `total` counts
      all matching uploads before paging. */
  function QueryUploads(uploads: map<string, Upload>, filter: GetUploadsFilterDto, owner: string)
    : (r: RecordsList)
    requires UploadColumnsUnique(uploads)
    requires filter.Valid()
    ensures r.total == |Matching(uploads, owner, filter.search)|
    ensures |r.data| <= r.total && |r.data| <= filter.take.GetOr(DefaultTake)
    ensures forall i :: 0 <= i < |r.data| ==> r.data[i] in Matching(uploads, owner, filter.search)
    ensures forall i, j :: 0 <= i < j < |r.data| ==>
              Le(LabelOf(r.data[i]), LabelOf(r.data[j])) && r.data[i] != r.data[j]
  {
    var matching := Matching(uploads, owner, filter.search);
    var skip: nat, take: nat := filter.skip.GetOr(0), filter.take.GetOr(DefaultTake);
    LabelsInjective(uploads, owner, filter.search);
    WindowOfSorted(matching, LabelOf, skip, take);
    RecordsList(|matching|, Window(SortBy(matching, LabelOf), skip, take))
  }

  /** The rows of a listing are a window of the ordered matching uploads. */
  lemma QueryData(uploads: map<string, Upload>, owner: string, search: Option<string>, skip: nat, take: nat)
    requires UploadColumnsUnique(uploads)
    requires 1 <= take <= MaxTake
    ensures InjectiveOn(Matching(uploads, owner, search), LabelOf)
    ensures QueryUploads(uploads, GetUploadsFilterDto(Some(skip), Some(take), search), owner).data
         == Window(SortBy(Matching(uploads, owner, search), LabelOf), skip, take)
  {
    LabelsInjective(uploads, owner, search);
  }

  /** Which uploads a listing returns: exactly the matching uploads whose
      position in label order (their rank) lies in `[skip, skip + take)`. */
  lemma QueryUploadsByRank(uploads: map<string, Upload>, filter: GetUploadsFilterDto, owner: string, u: Upload)
    requires UploadColumnsUnique(uploads)
    requires filter.Valid()
    ensures u in QueryUploads(uploads, filter, owner).data <==>
              && u in Matching(uploads, owner, filter.search)
              && filter.skip.GetOr(0) <= Rank(u, Matching(uploads, owner, filter.search), LabelOf)
                   < filter.skip.GetOr(0) + filter.take.GetOr(DefaultTake)
  {
    LabelsInjective(uploads, owner, filter.search);
    WindowByRank(Matching(uploads, owner, filter.search), LabelOf, filter.skip.GetOr(0), filter.take.GetOr(DefaultTake), u);
  }

  /** Consecutive pages tile the ordered result: the page at `skip` of size
      `a`, followed by the page at `skip + a`, is the page at `skip` of size
      `a + b`. */
  lemma PagesConcatenate(uploads: map<string, Upload>, owner: string, search: Option<string>,
                         skip: nat, a: nat, b: nat)
    requires UploadColumnsUnique(uploads)
    requires 1 <= a && 1 <= b && a + b <= MaxTake
    ensures QueryUploads(uploads, GetUploadsFilterDto(Some(skip), Some(a), search), owner).data
          + QueryUploads(uploads, GetUploadsFilterDto(Some(skip + a), Some(b), search), owner).data
         == QueryUploads(uploads, GetUploadsFilterDto(Some(skip), Some(a + b), search), owner).data
  {
    QueryData(uploads, owner, search, skip, a);
    QueryData(uploads, owner, search, skip + a, b);
    QueryData(uploads, owner, search, skip, a + b);
    WindowsConcatenate(SortBy(Matching(uploads, owner, search), LabelOf), skip, a, b);
  }

  // ---------------------------------------------------------------------------

  /** The database: both tables, with the schema's constraints as invariant. */
  class Database {
    var users: map<string, User>
    var uploads: map<string, Upload>

    ghost predicate Valid()
      reads this
    {
      UsersValid(users) && UploadsValid(uploads, users)
    }

    constructor ()
      ensures Valid() && users == map[] && uploads == map[]
    {
      users := map[];
      uploads := map[];
    }

    /** `UserRepository.createUser`: insert a user with exactly the given email
        and (already hashed) password under the generated id `id`. */
    method CreateUser(email: string, password: string, id: string, fault: Option<string>)
      returns (status: DBSavedStatus, user: Option<User>)
      requires Valid() && IsUuid(id)
      modifies this
      ensures Valid() && uploads == old(uploads)
      ensures var err := UserInsertError(old(users), User(id, email, password), fault);
              && (status == SUCCESS <==> err.None?)
              && (status == CONFLICT <==> err == Some(UniqueViolation))
      ensures status == SUCCESS ==>
                user == Some(User(id, email, password)) && users == old(users)[id := User(id, email, password)]
      ensures status != SUCCESS ==> user == None && users == old(users)
    {
      var u := User(id, email, password);
      var err := UserInsertError(users, u, fault);
      if err.Some? {
        return ClassifySaveError(err.value), None;
      }
      UserInsertKeepsValid(users, u, fault);
      users := users[id := u];
      return SUCCESS, Some(u);
    }

    /** `UploadRepository.createUpload`: insert an upload with exactly the given
        key, url, label and owner under the generated id `id`. */
    method CreateUpload(key: string, url: string, labelText: string, owner: User, id: string,
                        fault: Option<string>)
      returns (status: DBSavedStatus, upload: Option<Upload>)
      requires Valid() && IsUuid(id)
      modifies this
      ensures Valid() && users == old(users)
      ensures var err := UploadInsertError(old(uploads), old(users), Upload(id, key, url, labelText, owner.id), fault);
              && (status == SUCCESS <==> err.None?)
              && (status == CONFLICT <==> err == Some(UniqueViolation))
      ensures status == SUCCESS ==>
                && upload == Some(Upload(id, key, url, labelText, owner.id))
                && uploads == old(uploads)[id := Upload(id, key, url, labelText, owner.id)]
      ensures status != SUCCESS ==> upload == None && uploads == old(uploads)
    {
      var u := Upload(id, key, url, labelText, owner.id);
      var err := UploadInsertError(uploads, users, u, fault);
      if err.Some? {
        return ClassifySaveError(err.value), None;
      }
      UploadInsertKeepsValid(uploads, users, u, fault);
      uploads := uploads[id := u];
      return SUCCESS, Some(u);
    }

    /** `uploadRepository.findOne({ id, user })`. */
    function FindUpload(id: string, owner: User): Option<Upload>
      reads this
    {
      UploadOwnedBy(uploads, id, owner.id)
    }

    /** `UploadRepository.getUploads`. */
    function GetUploads(filter: GetUploadsFilterDto, owner: User): RecordsList
      reads this
      requires Valid() && filter.Valid()
    {
      QueryUploads(uploads, filter, owner.id)
    }

    /** `userRepository.remove(user)`: the row goes and, by the cascading
        foreign key, so do the rows of the user's uploads. */
    method RemoveUser(user: User)
      requires Valid()
      modifies this
      ensures Valid()
      ensures (users, uploads) == CascadeRemoveUser(old(users), old(uploads), user.id)
    {
      var r := CascadeRemoveUser(users, uploads, user.id);
      users, uploads := r.0, r.1;
    }

    /** `uploadRepository.remove([upload])`. */
    method RemoveUpload(upload: Upload)
      requires Valid()
      modifies this
      ensures Valid() && users == old(users)
      ensures uploads == old(uploads) - {upload.id}
    {
      uploads := uploads - {upload.id};
    }
  }
}
