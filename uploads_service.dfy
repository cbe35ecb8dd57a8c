/** `UploadsService`: stores an uploaded file in the bucket under the owner's
    namespace and records it in the upload table; reads, lists and deletes
    uploads on behalf of their owner. The uuid generator, the request's
    protocol and host, and the faults of the two stores are inputs. */
module Uploads {
  import opened Common
  import opened Strings
  import opened Entities
  import opened UploadsFilter
  import opened AwsS3
  import opened Repositories

  /** The multipart file of a request: its client-side name and its content. */
  datatype File = File(originalName: string, buffer: Bytes)

  /** The parts of the request the service reads. */
  datatype ServerInfo = ServerInfo(protocol: string, host: string)

  const FileRequired := "\"file\" field is required"
  const InvalidLabel := "Invalid label"

  // ---------------------------------------------------------------------------
  // Names derived from a request

  /** `originalname.split('.')[1] || ''`: the second `.`-separated piece of
      the name, or the empty string when the name has no `.`. */
  function Extension(originalName: string): (ext: string)
    ensures '.' !in ext
    ensures '.' !in originalName ==> ext == ""
  {
    var parts := Split(originalName, '.');
    var ext := if |parts| > 1 then parts[1] else "";
    assert '.' !in originalName ==> ext == "" by {
      if '.' !in originalName {
        SplitNoSeparator(originalName, '.');
      }
    }
    ext
  }

  /** For a name written as pieces joined by `.`, the extension is the second
      piece, whatever follows it. */
  lemma ExtensionOfJoined(base: string, ext: string, rest: seq<string>)
    requires '.' !in base && '.' !in ext
    requires forall i :: 0 <= i < |rest| ==> '.' !in rest[i]
    ensures Extension(Join([base, ext] + rest, '.')) == ext
  {
    var parts := [base, ext] + rest;
    forall i | 0 <= i < |parts|
      ensures '.' !in parts[i]
    {
      if i >= 2 {
        assert parts[i] == rest[i - 2];
      }
    }
    SplitJoin(parts, '.');
    assert Split(Join(parts, '.'), '.')[1] == ext;
  }

  /** `${uuid()}.${fileExtension}`: the stored file name, which always holds a
      `.` even when the extension is empty. */
  function FileName(uuid: string, ext: string): (name: string)
    ensures '.' in name
    ensures '.' !in uuid && '.' !in ext ==> Split(name, '.') == [uuid, ext]
  {
    var name := uuid + "." + ext;
    assert name[|uuid|] == '.';
    assert '.' !in uuid && '.' !in ext ==> Split(name, '.') == [uuid, ext] by {
      if '.' !in uuid && '.' !in ext {
        assert name == Join([uuid, ext], '.');
        SplitJoin([uuid, ext], '.');
      }
    }
    name
  }

  /** The stored file name keeps the extension of the client's file name. */
  lemma FileNameKeepsExtension(uuid: string, originalName: string)
    requires IsUuid(uuid)
    ensures Extension(FileName(uuid, Extension(originalName))) == Extension(originalName)
  {
    UuidIsOneSegment(uuid);
  }

  /** `${user.id}/${fileName}`: the object key, inside the owner's namespace. */
  function StorageKey(owner: string, fileName: string): (key: string)
    ensures StartsWith(key, owner + "/")
    ensures '/' !in owner ==> Split(key, '/')[0] == owner
  {
    var key := owner + "/" + fileName;
    assert key == owner + ['/'] + fileName;
    assert '/' !in owner ==> Split(key, '/')[0] == owner by {
      if '/' !in owner {
        SplitAfterHead(owner, '/', fileName);
      }
    }
    key
  }

  /** The file name is what follows `<owner>/` in the key, so one owner's keys
      for distinct file names are distinct. */
  lemma StorageKeyNamesFile(owner: string, fileName: string, other: string)
    ensures StorageKey(owner, fileName)[|owner| + 1..] == fileName
    ensures StorageKey(owner, fileName) == StorageKey(owner, other) ==> fileName == other
  {
    var k1, k2 := StorageKey(owner, fileName), StorageKey(owner, other);
    assert k1[|owner| + 1..] == fileName && k2[|owner| + 1..] == other;
  }

  /** `${protocol}://${host}/uploads/file/${fileName}`: the public address. */
  function FileUrl(protocol: string, host: string, fileName: string): (url: string)
    ensures StartsWith(url, protocol + "://" + host + "/uploads/file/")
    ensures |fileName| <= |url| && url[|url| - |fileName|..] == fileName
    ensures url[|protocol + "://" + host + "/uploads/file/"|..] == fileName
  {
    protocol + "://" + host + "/uploads/file/" + fileName
  }

  /** Distinct generated uuids give distinct file names, hence distinct object
      keys and distinct urls: the `key` and `url` unique columns cannot clash
      for two uploads of the same owner through the same host. */
  lemma DistinctUuidsDistinctNames(owner: string, protocol: string, host: string,
                                   u1: string, e1: string, u2: string, e2: string)
    requires IsUuid(u1) && IsUuid(u2) && u1 != u2
    ensures FileName(u1, e1) != FileName(u2, e2)
    ensures StorageKey(owner, FileName(u1, e1)) != StorageKey(owner, FileName(u2, e2))
    ensures FileUrl(protocol, host, FileName(u1, e1)) != FileUrl(protocol, host, FileName(u2, e2))
  {
    UuidIsOneSegment(u1);
    UuidIsOneSegment(u2);
    var f1, f2 := FileName(u1, e1), FileName(u2, e2);
    assert f1[..36] == u1 && f2[..36] == u2;
    var k1, k2 := StorageKey(owner, f1), StorageKey(owner, f2);
    assert k1[|owner| + 1..] == f1 && k2[|owner| + 1..] == f2;
    var p := protocol + "://" + host + "/uploads/file/";
    assert FileUrl(protocol, host, f1)[|p|..] == f1 && FileUrl(protocol, host, f2)[|p|..] == f2;
  }

  /** A key in one slash-free owner's namespace is in no other owner's. */
  lemma OwnNamespaceOnly(owner: string, other: string, fileName: string)
    requires '/' !in owner && '/' !in other && owner != other
    ensures !StartsWith(StorageKey(owner, fileName), other + "/")
  {
    if StartsWith(StorageKey(owner, fileName), other + "/") {
      NamespacesDisjoint(StorageKey(owner, fileName), owner, other);
    }
  }

  // ---------------------------------------------------------------------------

  class UploadsService {
    const s3: AwsS3Service
    const db: Database

    ghost predicate Valid()
      reads db
    {
      db.Valid() && KeysNamespaced(db.uploads)
    }

    constructor (s3: AwsS3Service, db: Database)
      requires db.Valid() && KeysNamespaced(db.uploads)
      ensures this.s3 == s3 && this.db == db && Valid()
    {
      this.s3 := s3;
      this.db := db;
    }

    /** `upload`: without a file, a bad request and nothing touched. Otherwise
        the object is written first; if that rejects, the error propagates and
        the table is untouched. Then the row is inserted; a conflict or an
        error of the insert is reported, but the object stays in the bucket
        (there is no compensating delete). On success the row created is
        returned. */
    method Upload(file: Option<File>, labelText: string, user: User, request: ServerInfo,
                  fileUuid: string, rowId: string, s3Fault: Option<S3Error>, dbFault: Option<string>)
      returns (r: Result<Upload>)
      requires Valid() && IsUuid(rowId)
      modifies s3, db
      ensures Valid() && db.users == old(db.users)
      ensures file.None? ==>
                r == Err(BadRequest(FileRequired)) && s3.objects == old(s3.objects) && db.uploads == old(db.uploads)
      ensures file.Some? && s3Fault.Some? ==>
                r == Err(Uncaught(s3Fault.value.code)) && s3.objects == old(s3.objects)
                && db.uploads == old(db.uploads)
      ensures file.Some? && s3Fault.None? ==>
                var fileName := FileName(fileUuid, Extension(file.value.originalName));
                var row := Entities.Upload(rowId, StorageKey(user.id, fileName),
                                  FileUrl(request.protocol, request.host, fileName), labelText, user.id);
                var err := UploadInsertError(old(db.uploads), old(db.users), row, dbFault);
                && s3.objects == old(s3.objects)[row.key := file.value.buffer]
                && (err.None? ==> r == Ok(row) && db.uploads == old(db.uploads)[rowId := row])
                && (err == Some(UniqueViolation) ==> r == Err(Conflict(InvalidLabel)))
                && (err.Some? && err != Some(UniqueViolation) ==> r == Err(InternalServerError))
                && (err.Some? ==> db.uploads == old(db.uploads))
    {
      if file.None? {
        return Err(BadRequest(FileRequired));
      }
      var fileName := FileName(fileUuid, Extension(file.value.originalName));
      var key := StorageKey(user.id, fileName);
      var written := s3.UploadObject(file.value.buffer, key, s3Fault);
      if written.Fail? {
        return Err(written.error);
      }
      var url := FileUrl(request.protocol, request.host, fileName);
      var status, upload := db.CreateUpload(key, url, labelText, user, rowId, dbFault);
      if status == ERROR {
        return Err(InternalServerError);
      }
      if status == CONFLICT {
        return Err(Conflict(InvalidLabel));
      }
      return Ok(upload.value);
    }

    /** `getFile`: read the object at `${user.id}/${file}`, the key `upload`
        wrote for that owner and file name. */
    method GetFile(fileName: string, user: User, fault: Option<S3Error>) returns (r: Result<Bytes>)
      ensures r.Ok? <==> fault.None? && StorageKey(user.id, fileName) in s3.objects
      ensures r.Ok? ==> r.value == s3.objects[StorageKey(user.id, fileName)]
      ensures r == Err(NotFound) <==>
                (fault.None? && StorageKey(user.id, fileName) !in s3.objects)
                || (fault.Some? && fault.value.code == "NotFound")
      ensures r.Err? && r != Err(NotFound) ==> r == Err(InternalServerError)
    {
      r := s3.GetObject(StorageKey(user.id, fileName), fault);
    }

    /** `getUploads`: the owner's listing, as the repository computes it. */
    function GetUploads(filter: GetUploadsFilterDto, user: User): RecordsList
      reads db
      requires db.Valid() && filter.Valid()
    {
      db.GetUploads(filter, user)
    }

    /** `getUpload`: the upload with that id if `user` owns it, else NotFound. */
    function GetUpload(id: string, user: User): (r: Result<Upload>)
      reads db
      ensures r.Ok? <==> id in db.uploads && db.uploads[id].owner == user.id
      ensures r.Ok? ==> r.value == db.uploads[id]
      ensures r.Err? ==> r.error == NotFound
    {
      match db.FindUpload(id, user)
      case None => Err(NotFound)
      case Some(upload) => Ok(upload)
    }

    /** `deleteUpload`: NotFound and nothing deleted unless `user` owns the
        upload; otherwise the object at the row's key goes first, then the row.
        If the object delete rejects, the row stays. */
    method DeleteUpload(id: string, user: User, fault: Option<S3Error>) returns (r: Outcome)
      requires Valid()
      modifies s3, db
      ensures Valid() && db.users == old(db.users)
      ensures r == Fail(NotFound) <==> !(id in old(db.uploads) && old(db.uploads)[id].owner == user.id)
      ensures r == Fail(NotFound) ==> s3.objects == old(s3.objects) && db.uploads == old(db.uploads)
      ensures r != Fail(NotFound) && fault.Some? ==>
                r == Fail(Uncaught(fault.value.code)) && s3.objects == old(s3.objects)
                && db.uploads == old(db.uploads)
      ensures r != Fail(NotFound) && fault.None? ==>
                && r == Pass
                && s3.objects == old(s3.objects) - {old(db.uploads)[id].key}
                && db.uploads == old(db.uploads) - {id}
    {
      var found := GetUpload(id, user);
      if found.Err? {
        return Fail(found.error);
      }
      var upload := found.value;
      var deleted := s3.DeleteObject(upload.key, fault);
      if deleted.Fail? {
        return deleted;
      }
      db.RemoveUpload(upload);
      return Pass;
    }
  }
}
