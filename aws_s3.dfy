/** The object-store adapter (`AwsS3Service`). The bucket is a map from key to
    bytes; the remote calls of the S3 SDK act on it as Amazon S3 specifies:
    `ListObjectsV2` returns at most `MaxKeys` keys under a prefix, in
    ascending key order, with `IsTruncated` set when more exist, and
    `DeleteObjects` removes a batch of keys. A rejected remote call is an
    input (`fault`): the environment decides when the network or the service
    fails. */
module AwsS3 {
  import opened Common
  import opened Strings
  import opened Sorting

  type Key = string
  type Bytes = seq<bv8>

  /** The error a rejected SDK call carries; `code` is the SDK's error code. */
  datatype S3Error = S3Error(code: string)

  /** A remote call of `emptyDirectory` that rejects: the listing or the batch
      delete of the given round (0 for the first). */
  datatype RoundFault = RoundFault(round: nat, error: S3Error)

  /** The default (and largest) page size of `ListObjectsV2`. */
  const MaxKeys: nat := 1000

  datatype ListObjectsV2Output = ListObjectsV2Output(contents: seq<Key>, isTruncated: bool)

  /** An element of `Delete.Objects` in a `DeleteObjects` request. */
  datatype ObjectIdentifier = ObjectIdentifier(key: Key)

  /** The keys of the bucket under `prefix`. */
  function PrefixedKeys(objects: map<Key, Bytes>, prefix: Key): set<Key> {
    set k | k in objects && StartsWith(k, prefix)
  }

  /** The bucket with every key under `prefix` gone and nothing else changed. */
  function WithoutPrefix(objects: map<Key, Bytes>, prefix: Key): map<Key, Bytes> {
    map k | k in objects && !StartsWith(k, prefix) :: objects[k]
  }

  function Min(a: nat, b: nat): nat { if a <= b then a else b }

  /** Number of pages of `MaxKeys` needed for `n` keys. */
  function Pages(n: nat): nat { (n + MaxKeys - 1) / MaxKeys }

  function Identity(k: Key): Key { k }

  /** The first `MaxKeys` keys of a set in ascending order. */
  function FirstPage(keys: set<Key>): seq<Key> {
    Window(SortBy(keys, Identity), 0, MaxKeys)
  }

  /** The first page has `min(n, MaxKeys)` keys of the set, exactly those
      of rank below `MaxKeys`. */
  lemma FirstPageMembers(keys: set<Key>)
    ensures |FirstPage(keys)| == Min(|keys|, MaxKeys)
    ensures forall i :: 0 <= i < |FirstPage(keys)| ==> FirstPage(keys)[i] in keys
    ensures forall k :: k in FirstPage(keys) <==> k in keys && Rank(k, keys, Identity) < MaxKeys
  {
    WindowOfSorted(keys, Identity, 0, MaxKeys);
  }

  /** The first page is ascending, without repeats. */
  lemma FirstPageSorted(keys: set<Key>)
    ensures forall i, j :: 0 <= i < j < |FirstPage(keys)| ==>
              Le(FirstPage(keys)[i], FirstPage(keys)[j]) && FirstPage(keys)[i] != FirstPage(keys)[j]
  {
    var all := SortBy(keys, Identity);
    WindowSorted(all, Identity, 0, MaxKeys);
    var page := FirstPage(keys);
    forall i, j | 0 <= i < j < |page|
      ensures Le(page[i], page[j])
    {
      assert Le(Identity(page[i]), Identity(page[j]));
    }
  }

  /** The first page of `ListObjectsV2` under `prefix`, as S3 answers it: the
      `MaxKeys` smallest keys under the prefix, ascending. */
  function ListObjectsV2(objects: map<Key, Bytes>, prefix: Key): (r: ListObjectsV2Output)
    ensures |r.contents| == Min(|PrefixedKeys(objects, prefix)|, MaxKeys)
    ensures forall i :: 0 <= i < |r.contents| ==> r.contents[i] in PrefixedKeys(objects, prefix)
    ensures forall i, j :: 0 <= i < j < |r.contents| ==> Le(r.contents[i], r.contents[j]) && r.contents[i] != r.contents[j]
    ensures forall k :: k in r.contents <==>
              k in PrefixedKeys(objects, prefix) && Rank(k, PrefixedKeys(objects, prefix), Identity) < MaxKeys
    ensures r.isTruncated <==> |PrefixedKeys(objects, prefix)| > MaxKeys
    ensures !r.isTruncated ==> forall k :: k in PrefixedKeys(objects, prefix) ==> k in r.contents
  {
    var keys := PrefixedKeys(objects, prefix);
    FirstPageMembers(keys);
    FirstPageSorted(keys);
    ListObjectsV2Output(FirstPage(keys), |keys| > MaxKeys)
  }

  /** The keys the first `ListObjectsV2` page under `prefix` names. */
  function ListedKeys(objects: map<Key, Bytes>, prefix: Key): set<Key> {
    set k | k in FirstPage(PrefixedKeys(objects, prefix))
  }

  /** The keys named by a `DeleteObjects` request. */
  function KeysOf(ids: seq<ObjectIdentifier>): set<Key> {
    set i | i in ids :: i.key
  }

  /** Deleting some of the keys under `prefix` leaves the others and every key
      outside the prefix in place. */
  lemma RemovePrefixedKeys(objects: map<Key, Bytes>, prefix: Key, gone: set<Key>)
    requires gone <= PrefixedKeys(objects, prefix)
    ensures PrefixedKeys(objects - gone, prefix) == PrefixedKeys(objects, prefix) - gone
    ensures |PrefixedKeys(objects - gone, prefix)| == |PrefixedKeys(objects, prefix)| - |gone|
    ensures WithoutPrefix(objects - gone, prefix) == WithoutPrefix(objects, prefix)
  {
    var before := PrefixedKeys(objects, prefix);
    assert PrefixedKeys(objects - gone, prefix) == before - gone;
    assert before == (before - gone) + gone;
  }

  /** One round of `emptyDirectory`: listing and deleting the listed keys
      removes exactly that many keys under the prefix and touches no other
      key; when the listing was not truncated nothing is left under the
      prefix. */
  lemma ListAndDeleteRound(objects: map<Key, Bytes>, prefix: Key, listed: ListObjectsV2Output)
    requires listed == ListObjectsV2(objects, prefix)
    ensures |PrefixedKeys(objects - (set k | k in listed.contents), prefix)|
              == |PrefixedKeys(objects, prefix)| - |listed.contents|
    ensures WithoutPrefix(objects - (set k | k in listed.contents), prefix) == WithoutPrefix(objects, prefix)
    ensures !listed.isTruncated ==> PrefixedKeys(objects - (set k | k in listed.contents), prefix) == {}
  {
    var gone := set k | k in listed.contents;
    assert gone <= PrefixedKeys(objects, prefix);
    DistinctCard(listed.contents);
    RemovePrefixedKeys(objects, prefix, gone);
  }

  class AwsS3Service {
    /** The contents of the configured bucket. */
    var objects: map<Key, Bytes>

    constructor (initial: map<Key, Bytes>)
      ensures objects == initial
    {
      objects := initial;
    }

    /** `uploadObject`: store `file` under `name`, replacing any object there. */
    method UploadObject(file: Bytes, name: Key, fault: Option<S3Error>) returns (r: Outcome)
      modifies this
      ensures fault.None? ==> r == Pass && objects == old(objects)[name := file]
      ensures fault.Some? ==> r == Fail(Uncaught(fault.value.code)) && objects == old(objects)
    {
      if fault.Some? {
        return Fail(Uncaught(fault.value.code));
      }
      objects := objects[name := file];
      return Pass;
    }

    /** The `headObject` probe: the SDK error it rejects with, if any. */
    function HeadObject(key: Key, fault: Option<S3Error>): (r: Option<S3Error>)
      reads this
      ensures r.None? <==> fault.None? && key in objects
      ensures fault.None? && key !in objects ==> r == Some(S3Error("NotFound"))
      ensures fault.Some? ==> r == fault
    {
      if fault.Some? then fault
      else if key in objects then None
      else Some(S3Error("NotFound"))
    }

    /** `getObject`: probe first, so that a missing object is reported as
        NotFound before any content is read; any other probe failure is an
        internal error. */
    method GetObject(key: Key, fault: Option<S3Error>) returns (r: Result<Bytes>)
      ensures r.Ok? <==> fault.None? && key in objects
      ensures r.Ok? ==> r.value == objects[key]
      ensures r == Err(NotFound) <==>
                (fault.None? && key !in objects) || (fault.Some? && fault.value.code == "NotFound")
      ensures r.Err? && r != Err(NotFound) ==> r == Err(InternalServerError)
    {
      var probe := HeadObject(key, fault);
      if probe.Some? {
        if probe.value.code == "NotFound" {
          return Err(NotFound);
        }
        return Err(InternalServerError);
      }
      return Ok(objects[key]);
    }

    /** `deleteObject`: remove `key`; removing an absent key is no error. */
    method DeleteObject(key: Key, fault: Option<S3Error>) returns (r: Outcome)
      modifies this
      ensures fault.None? ==> r == Pass && objects == old(objects) - {key}
      ensures fault.Some? ==> r == Fail(Uncaught(fault.value.code)) && objects == old(objects)
    {
      if fault.Some? {
        return Fail(Uncaught(fault.value.code));
      }
      objects := objects - {key};
      return Pass;
    }

    /** The `DeleteObjects` call: one request removes a batch of at most
        `MaxKeys` keys. */
    method DeleteObjects(ids: seq<ObjectIdentifier>)
      requires |ids| <= MaxKeys
      modifies this
      ensures objects == old(objects) - KeysOf(ids)
    {
      objects := objects - KeysOf(ids);
    }

    /** The `forEach` that fills `Delete.Objects` from the listing. */
    static method CollectObjectIdentifiers(contents: seq<Key>) returns (ids: seq<ObjectIdentifier>)
      ensures |ids| == |contents|
      ensures forall i :: 0 <= i < |ids| ==> ids[i].key == contents[i]
      ensures KeysOf(ids) == set k | k in contents
    {
      ids := [];
      var i := 0;
      while i < |contents|
        invariant 0 <= i <= |contents|
        invariant |ids| == i
        invariant forall j :: 0 <= j < i ==> ids[j] == ObjectIdentifier(contents[j])
      {
        ids := ids + [ObjectIdentifier(contents[i])];
        i := i + 1;
      }
      assert forall k :: k in KeysOf(ids) ==> exists j :: 0 <= j < |ids| && ids[j].key == k;
    }

    /** One call's worth of `emptyDirectory`: list the first page under
        `prefix` and, unless it is empty, delete exactly the listed keys in one
        batch. Returns how many keys were listed and whether the listing was
        truncated. */
    method ListAndDeletePage(prefix: Key) returns (listed: nat, truncated: bool)
      modifies this
      ensures listed == Min(|PrefixedKeys(old(objects), prefix)|, MaxKeys)
      ensures truncated <==> |PrefixedKeys(old(objects), prefix)| > MaxKeys
      ensures |PrefixedKeys(objects, prefix)| == |PrefixedKeys(old(objects), prefix)| - listed
      ensures WithoutPrefix(objects, prefix) == WithoutPrefix(old(objects), prefix)
      ensures forall k :: k in objects ==> k in old(objects) && objects[k] == old(objects)[k]
      ensures !truncated ==> objects == WithoutPrefix(old(objects), prefix)
      ensures objects == old(objects) - ListedKeys(old(objects), prefix)
    {
      var page := ListObjectsV2(objects, prefix);
      if |page.contents| == 0 {
        NoPrefixedKeys(objects, prefix);
        return 0, false;
      }
      var ids := CollectObjectIdentifiers(page.contents);
      ListAndDeleteRound(objects, prefix, page);
      DeleteObjects(ids);
      if !page.isTruncated {
        NoPrefixedKeys(objects, prefix);
      }
      return |page.contents|, page.isTruncated;
    }

    /** `emptyDirectory`: list the keys under `prefix`; stop if there are none;
        otherwise delete exactly the listed keys in one batch and, if the
        listing was truncated, call itself again with the same prefix. `fault`
        names the first call (0 for this one) whose listing or batch delete
        rejects. Without a fault every key under the prefix is gone afterwards,
        after one listing and one batch delete per page; with or without one,
        no other key is touched. */
    method EmptyDirectory(prefix: Key, fault: Option<RoundFault>)
      returns (r: Outcome, listCalls: nat, deleteCalls: nat)
      modifies this
      ensures WithoutPrefix(objects, prefix) == WithoutPrefix(old(objects), prefix)
      ensures forall k :: k in objects ==> k in old(objects) && objects[k] == old(objects)[k]
      ensures var pages := Pages(|PrefixedKeys(old(objects), prefix)|);
              r.Pass? <==> fault.None? || fault.value.round >= (if pages == 0 then 1 else pages)
      ensures r.Pass? ==> objects == WithoutPrefix(old(objects), prefix)
      ensures r.Pass? ==> deleteCalls == Pages(|PrefixedKeys(old(objects), prefix)|)
      ensures r.Pass? ==> listCalls == (if deleteCalls == 0 then 1 else deleteCalls)
      ensures r.Fail? ==> r.error == Uncaught(fault.value.error.code)
      decreases |PrefixedKeys(objects, prefix)|
    {
      if fault.Some? && fault.value.round == 0 {
        return Fail(Uncaught(fault.value.error.code)), 0, 0;
      }
      ghost var n := |PrefixedKeys(objects, prefix)|;
      var listed, truncated := ListAndDeletePage(prefix);
      if listed == 0 {
        return Pass, 1, 0;
      }
      if !truncated {
        return Pass, 1, 1;
      }
      PagesStep(n);
      var later := if fault.Some? then Some(RoundFault(fault.value.round - 1, fault.value.error)) else None;
      r, listCalls, deleteCalls := EmptyDirectory(prefix, later);
      listCalls, deleteCalls := listCalls + 1, deleteCalls + 1;
    }
  }

  lemma NoPrefixedKeys(objects: map<Key, Bytes>, prefix: Key)
    requires PrefixedKeys(objects, prefix) == {}
    ensures objects == WithoutPrefix(objects, prefix)
  {
    forall k | k in objects
      ensures !StartsWith(k, prefix)
    {
      assert k !in PrefixedKeys(objects, prefix);
    }
    assert objects.Keys == WithoutPrefix(objects, prefix).Keys;
  }

  /** A full page taken off more than a page of keys leaves one page fewer;
      a non-empty last page is one page. */
  lemma PagesStep(n: nat)
    requires n > MaxKeys
    ensures Pages(n - MaxKeys) + 1 == Pages(n) && Pages(n) >= 2
  {
  }
}
