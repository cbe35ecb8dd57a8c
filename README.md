# upload-app-api: a Dafny model of the upload service core

This project models the core of `upload-app-api`, a NestJS service. Users sign
up and sign in, then upload, list, fetch and delete files. File contents live
in one S3 bucket, and the metadata lives in a PostgreSQL database.

The model has two stores and the services that coordinate them.

- **Bucket.** `AwsS3.AwsS3Service` is a class whose `objects` field maps keys
  to bytes. Its methods act on that map as the S3 calls do:
  - `upload` stores an object;
  - `headObject` then `getObject` reads one;
  - `deleteObject` removes one;
  - `ListObjectsV2` returns the first page of at most 1000 keys under a
    prefix, in ascending key order, with `IsTruncated`;
  - `DeleteObjects` removes a batch of keys.
- **Prefix purge.** `emptyDirectory` is the one real algorithm. It is a
  recursive method, as in the source: list a page, stop on an empty page,
  batch-delete exactly the listed keys, and recurse while the page was
  truncated. Termination is proved from the number of keys left under the
  prefix.
- **Database.** `Repositories.Database` is a class holding the user table and
  the upload table. Its invariant states the schema constraints:
  - generated uuid ids;
  - unique `email`;
  - unique `key`, `url` and `label`, each across the whole table;
  - the owner foreign key, which cascades on delete.

  An insert reports `SUCCESS`, `CONFLICT` (SQLSTATE `23505`) or `ERROR`. The
  listing query filters by owner and label substring, orders by label, pages
  with skip/take and counts the total.
- **Query filter.** `UploadsFilter` models the listing's query parameters:
  `Number.parseInt` of the query strings, then the `IsInt`/`Min`/`Max`
  checks.
- **Services.** `Uploads.UploadsService` and `Auth.AuthService` are the two
  services. They derive the file name, the object key `<user id>/<uuid>.<ext>`
  and the public URL, sequence the bucket and table writes, and map statuses
  and SDK errors to HTTP exceptions.

These become inputs instead of being modelled:

- the bcrypt `hash` and `compare` functions;
- the JWT `sign` function;
- the uuid generator and the database-generated ids;
- the request's protocol and host;
- the faults of remote calls: an S3 SDK rejection, or a database error code
  other than a constraint violation.

Two details of the code shape the model:

- **Extension.** The extension is `split('.')[1] || ''`: the second
  `.`-separated piece of the client's file name. For `a.tar.gz` that is `tar`.
- **Label uniqueness.** The `label` column is unique across all users, not per
  user (`src/uploads/upload.entity.ts:17-18`). Two users cannot both have an
  upload labelled `cv`.

Some members only delegate or compose, and have no row of their own. The
property of each is stated by the member named beside it:

- `Uploads.UploadsService.GetUploads` and `Repositories.Database.GetUploads`
  pass through to the listing query: `Repositories.QueryUploads`,
  `Repositories.QueryUploadsByRank`.
- `Repositories.Database.FindUpload` is `findOne({ id, user })`:
  `Repositories.UploadOwnedBy`.
- `UploadsFilter.ParseInt` is `Number.parseInt`:
  `UploadsFilter.ParseIntDecimal`, `UploadsFilter.Validate`.
- `Auth.GetAccessToken` signs `{ id: uid }`: `Auth.TokenCarriesId`.

## Model

| member | source | states |
|---|---|---|
| `Strings.ContainsIffOccurs` | src/uploads/upload.repository.ts:38-40 | the label filter `LIKE '%search%'` holds exactly when `search` occurs at some position of the label |
| `Strings.LeTotal` | src/uploads/upload.repository.ts:44 | any two labels or keys are comparable in the ascending order |
| `Strings.LeAntisymmetric` | src/uploads/upload.repository.ts:44 | two strings that each sort before or equal to the other are equal, so the order on distinct labels is strict |
| `Strings.LeTransitive` | src/uploads/upload.repository.ts:44 | the ascending order is transitive |
| `Strings.Split` | src/uploads/uploads.service.ts:48 | `split(sep)` yields at least one piece and no piece contains the separator |
| `Strings.JoinSplit` | src/uploads/uploads.service.ts:48 | joining the pieces of a split with the separator gives back the original string |
| `Strings.SplitJoin` | src/uploads/uploads.service.ts:48 | splitting separator-free pieces joined by the separator gives back the pieces |
| `Strings.NamespacesDisjoint` | src/uploads/uploads.service.ts:50 | if a key starts with both `a/` and `b/` for slash-free `a` and `b`, then `a == b`, so distinct owners' key namespaces are disjoint |
| `Sorting.SortBy` | src/uploads/upload.repository.ts:44 | the elements of the set in ascending key order: same size, same elements, no repeats, sorted |
| `Sorting.SortByRank` | src/uploads/upload.repository.ts:44 | the element at position `i` of the order has exactly `i` elements with a smaller key |
| `Sorting.WindowOfSorted` | src/uploads/upload.repository.ts:42-47 | a skip/take window of the order: its size, its elements, its order, and that it holds exactly the elements whose rank is in `[skip, skip + take)` |
| `Sorting.WindowsConcatenate` | src/uploads/upload.repository.ts:45-46 | adjacent windows concatenate to the window spanning both |
| `Entities.UuidIsOneSegment` | src/uploads/uploads.service.ts:49 | a v4 uuid, as `uuid()` gives for the file name and as the `uuid` primary keys hold, contains neither `/` nor `.` |
| `Entities.PlainUserHidesPassword` | src/auth/user.entity.ts:13-19 | the plain form of a user is its id and email and does not depend on the password hash |
| `Entities.PlainUploadHidesKeyAndOwner` | src/uploads/upload.entity.ts:10-25 | the plain form of an upload is its id, url and label and does not depend on the key or the owner |
| `Entities.CascadeRemoveUser` | src/uploads/upload.entity.ts:20-25 | removing a user removes exactly that user's row and the rows of the user's uploads, keeps every other row, and keeps both tables valid |
| `UploadsFilter.ParseIntDecimal` | src/uploads/dto/get-uploads-filter.dto.ts:8 | `parseInt` reads back every integer written in decimal |
| `UploadsFilter.Validate` | src/uploads/dto/get-uploads-filter.dto.ts:5-20 | a query is accepted exactly when each present `skip` parses to an integer `>= 0` and each present `take` to one in `[1, 10000]`; the accepted DTO is valid, keeps the search, and holds `Number.parseInt` of exactly the parameters that were present |
| `UploadsFilter.ValidateRender` | src/uploads/dto/get-uploads-filter.dto.ts:4-21 | every valid DTO, sent as a query string, is accepted as that same DTO |
| `AwsS3.ListObjectsV2` | src/aws-s3/aws-s3.service.ts:74 | the listing holds `min(n, 1000)` of the `n` keys under the prefix, namely those of rank below 1000, ascending and distinct; it is truncated exactly when `n > 1000` and is complete otherwise |
| `AwsS3.FirstPageMembers` | src/aws-s3/aws-s3.service.ts:74 | a first page holds `min(n, 1000)` keys, exactly those of rank below 1000 |
| `AwsS3.FirstPageSorted` | src/aws-s3/aws-s3.service.ts:74 | a first page is ascending and has no repeats |
| `AwsS3.RemovePrefixedKeys` | src/aws-s3/aws-s3.service.ts:86 | deleting some keys under the prefix removes exactly that many prefixed keys and leaves every key outside the prefix |
| `AwsS3.ListAndDeleteRound` | src/aws-s3/aws-s3.service.ts:74-86 | deleting the listed keys lowers the prefixed count by the page size and leaves other keys alone; after an untruncated page nothing is left under the prefix |
| `AwsS3.AwsS3Service.constructor` | src/aws-s3/aws-s3.service.ts:14-16 | the service starts on the given bucket contents |
| `AwsS3.AwsS3Service.UploadObject` | src/aws-s3/aws-s3.service.ts:20-31 | the key maps to the file afterwards and no other key changes; a rejected call changes nothing and propagates |
| `AwsS3.AwsS3Service.HeadObject` | src/aws-s3/aws-s3.service.ts:42 | the probe succeeds exactly when the call is not rejected and the key is present; a missing key is rejected with code `NotFound`, and an SDK rejection is passed on unchanged |
| `AwsS3.AwsS3Service.GetObject` | src/aws-s3/aws-s3.service.ts:35-54 | the content is returned only when the probe succeeds; a `NotFound` probe gives NotFound and any other probe failure InternalServerError |
| `AwsS3.AwsS3Service.DeleteObject` | src/aws-s3/aws-s3.service.ts:58-64 | only the given key goes (an absent key is no error); a rejected call changes nothing |
| `AwsS3.AwsS3Service.DeleteObjects` | src/aws-s3/aws-s3.service.ts:86 | one batch removes exactly the named keys |
| `AwsS3.AwsS3Service.CollectObjectIdentifiers` | src/aws-s3/aws-s3.service.ts:82-84 | the `forEach` pushes one identifier per listed key, in order, so the batch names exactly the listed keys |
| `AwsS3.AwsS3Service.ListAndDeletePage` | src/aws-s3/aws-s3.service.ts:74-86 | one call lists `min(n, 1000)` keys and the new bucket is the old one minus exactly the keys of that first page (nothing goes when the page is empty), touches no key outside the prefix, and leaves nothing under the prefix when the page was not truncated |
| `AwsS3.AwsS3Service.EmptyDirectory` | src/aws-s3/aws-s3.service.ts:68-89 | keys outside the prefix are never touched and no key is added. Without a fault, no key under the prefix remains, after `ceil(n/1000)` batch deletes and as many listings, or one listing when there was nothing to delete. A fault fails the purge exactly when it hits one of those calls. |
| `Repositories.ClassifySaveError` | src/uploads/upload.repository.ts:22-27 | a failed save is CONFLICT exactly for code `23505` and ERROR otherwise |
| `Repositories.UserInsertKeepsValid` | src/auth/user.entity.ts:7-11 | an accepted user insert keeps ids generated and emails unique |
| `Repositories.UploadInsertKeepsValid` | src/uploads/upload.entity.ts:7-25 | an accepted upload insert keeps ids generated, keys, urls and labels unique and owners existing |
| `Repositories.UserWithEmail` | src/auth/auth.service.ts:56 | `findOne({ email })` finds the one user with that email, or reports that none has it |
| `Repositories.UploadOwnedBy` | src/uploads/uploads.service.ts:105 | `findOne({ id, user })` finds the upload only when it exists and is owned by that user |
| `Repositories.LabelsInjective` | src/uploads/upload.entity.ts:17-18 | since labels are unique, ordering the listing by label is a total order on its rows |
| `Repositories.QueryUploads` | src/uploads/upload.repository.ts:32-53 | `total` counts every upload of the owner matching the search; `data` is at most `take` of them, in label order, with no repeats |
| `Repositories.QueryUploadsByRank` | src/uploads/upload.repository.ts:42-47 | an upload is in `data` exactly when it matches and its rank by label is in `[skip, skip + take)`, with defaults 0 and 50 |
| `Repositories.PagesConcatenate` | src/uploads/upload.repository.ts:45-46 | the page of `a` rows at `skip`, followed by the page of `b` rows at `skip + a`, is the page of `a + b` rows at `skip` |
| `Repositories.Database.constructor` | src/auth/user.repository.ts:6 | the model's initial state, which has no step in the source: both tables are empty, and empty tables are valid |
| `Repositories.Database.CreateUser` | src/auth/user.repository.ts:7-21 | the user is stored with exactly the given email and password hash under the new id. A duplicate id or email gives CONFLICT, any other failure ERROR, and a failed insert leaves the table unchanged. |
| `Repositories.Database.CreateUpload` | src/uploads/upload.repository.ts:11-28 | the upload is stored with exactly the given key, url, label and owner. A duplicate id, key, url or label gives CONFLICT, any other failure ERROR, and a failed insert leaves the table unchanged. The user table never changes. |
| `Repositories.Database.RemoveUser` | src/auth/auth.service.ts:77 | removing the user is the cascading removal: the user's row and upload rows go, nothing else changes |
| `Repositories.Database.RemoveUpload` | src/uploads/uploads.service.ts:99 | only that upload's row goes |
| `Uploads.Extension` | src/uploads/uploads.service.ts:48 | the extension never contains `.`, and is empty when the client's file name has no `.` |
| `Uploads.ExtensionOfJoined` | src/uploads/uploads.service.ts:48 | for a name written as dot-free pieces, the extension is the second piece, whatever follows |
| `Uploads.FileName` | src/uploads/uploads.service.ts:49 | the stored file name always contains `.`; for dot-free parts it splits back into exactly the uuid and the extension |
| `Uploads.FileNameKeepsExtension` | src/uploads/uploads.service.ts:48-49 | the stored file name has the same extension as the client's file name |
| `Uploads.FileUrl` | src/uploads/uploads.service.ts:57 | the url is exactly `<protocol>://<host>/uploads/file/` followed by the stored file name |
| `Uploads.StorageKey` | src/uploads/uploads.service.ts:50 | the key starts with `<owner>/`, and for a slash-free owner its first `/` piece is the owner |
| `Uploads.StorageKeyNamesFile` | src/uploads/uploads.service.ts:50 | the key is `<owner>/` followed by exactly the file name, so one owner's keys for distinct file names are distinct |
| `Uploads.DistinctUuidsDistinctNames` | src/uploads/uploads.service.ts:48-57 | distinct uuids give distinct file names, keys and urls |
| `Uploads.OwnNamespaceOnly` | src/uploads/uploads.service.ts:79-82 | a key built for one owner is never in another owner's namespace |
| `Uploads.UploadsService.constructor` | src/uploads/uploads.service.ts:27-34 | the service is wired to the given bucket and database. Given a valid database whose upload keys all lie in their owners' namespaces, the service starts valid. |
| `Uploads.UploadsService.Upload` | src/uploads/uploads.service.ts:38-75 | Without a file: BadRequest, and nothing is touched. A rejected bucket write propagates and leaves the table untouched. Otherwise the object is written first and then the row inserted. A failed insert gives Conflict("Invalid label") or InternalServerError and keeps the written object. Success returns exactly the inserted row. |
| `Uploads.UploadsService.GetFile` | src/uploads/uploads.service.ts:79-82 | reads the object at `<user id>/<file>`, the key `upload` writes, with the NotFound/InternalServerError mapping of `getObject` |
| `Uploads.UploadsService.GetUpload` | src/uploads/uploads.service.ts:104-110 | the upload is returned only when it exists and the user owns it; otherwise NotFound |
| `Uploads.UploadsService.DeleteUpload` | src/uploads/uploads.service.ts:95-100 | NotFound, with nothing deleted, unless the user owns the upload. Otherwise the object at the row's key is deleted first and then the row. If the object delete rejects, the row stays. |
| `Auth.TokenCarriesId` | src/auth/auth.service.ts:67-70 | the token's payload, read back with the signer's inverse, is exactly `{ id: uid }` |
| `Auth.Signin` | src/auth/auth.service.ts:54-63 | sign-in succeeds exactly when a user has that email and `compare` accepts the password against the stored hash, and then answers a token for that user's id; any failure is Unauthorized("Invalid email or password") |
| `Auth.SigninFailuresAlike` | src/auth/auth.service.ts:58-60 | an unknown email and a wrong password give the same answer |
| `Auth.SigninAfterSignup` | src/auth/auth.service.ts:31-63 | after a successful sign-up, signing in with the same email and password answers a token for the new id |
| `Auth.AuthService.constructor` | src/auth/auth.service.ts:21-27 | the service is wired to the given bucket and database |
| `Auth.AuthService.Signup` | src/auth/auth.service.ts:31-50 | the stored password is `hash(password, salt)`. Insert ERROR gives InternalServerError and CONFLICT gives Conflict("Invalid email"), with the table unchanged. Success stores the user and answers a token for its id. |
| `Auth.AuthService.DeleteCurrentUser` | src/auth/auth.service.ts:74-78 | the bucket purge of `<id>/` runs first. It never adds or changes an object and never touches a key outside `<id>/`. If it fails, no row is removed. Otherwise the user's rows are removed with the cascade, and no object of the user's uploads remains. |

## Left out

- Controllers, guards, DI wiring and configuration are left out. They route requests and load settings and hold no logic of the core.
- The sign-up DTO validation (`IsEmail`, the password regex, `Match`) is left out. It depends on library behaviour not visible here.
- The internals of bcrypt, JWT and uuid are not modelled. They are function parameters. `compare` is only assumed to accept a password against its own hash where a lemma says so.
- Bucket names are not modelled: every call goes to the one configured bucket.
- Objects are read as whole byte sequences, not `Readable` streams.
- The race between the `headObject` probe and the `getObject` read is not modelled.
- `DeleteObjects` reports per-key errors, which the source ignores. The model assumes every named key is deleted, so partial batch failures are not modelled. In the source, if only some keys of a round fail, each truncated round still deletes at least one key, so `emptyDirectory` stops. It returns normally with the failed keys still in the bucket, and `deleteCurrentUser` (`src/auth/auth.service.ts:77`) removes the user row anyway. Only when every key of a truncated page fails does the next `listObjectsV2` (`src/aws-s3/aws-s3.service.ts:74`) return that same page again, and the recursion never stops. This needs at least 1000 keys that keep failing and sort first under the prefix.
- `AwsS3.AwsS3Service.DeleteObjects` requires at most 1000 keys. This limit comes from the S3 API, not from the source.
- `AwsS3.AwsS3Service.EmptyDirectory`: a fault stops the purge in the round it hits. That round deletes nothing.
- `LIKE` wildcards in `search` (`%`, `_`) are not modelled. The search is a plain, case-sensitive substring test.
- `Uploads.FileUrl`: the url is built without percent-encoding, and the model does not cover routing. An extension containing `#`, `?` or `%` gives a url whose path does not reach `getFile` as that file name, and the model does not capture this.
- Collation is not modelled. Labels and keys are ordered by code point.
- `Number.parseInt` is modelled on integers. Float precision, digits beyond 2^53, and array-valued query parameters are left out.
- Concurrent requests are not modelled. Uniqueness is enforced by the table invariants, one request at a time.
- `updateUploadLabel` is left out: the service file has no such method.
- Database faults are modelled only on inserts. `findOne`, `findAndCount` and `remove` always succeed.
- `Repositories.Database.RemoveUser` and `Repositories.Database.RemoveUpload` always succeed. This is why `deleteCurrentUser` and `deleteUpload` never fail after the bucket step.
- Uploads are listed in the order of the Dafny model's `SortBy`. Rows with equal labels cannot occur, because labels are unique.
