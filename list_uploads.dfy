/** pages/api/list-uploads.ts: the gallery's image list. The bucket listing is walked
    in order; an object is skipped when its key has no basename or when an earlier
    object already had the same basename; the others become public URLs. */
module ListUploadsApi {
  import opened Wrappers
  import opened Http
  import opened Paths

  const ListErrorMessage := "Error al listar imágenes"

  /** An entry of `ListObjectsV2`'s `Contents`; its `Key` may be missing. */
  datatype S3Object = S3Object(key: Option<string>)

  /** What `s3Client.send(ListObjectsV2Command)` gave: a thrown error, or a response
      whose `Contents` may be missing. */
  datatype Listing = ListFailed | Listed(contents: Option<seq<S3Object>>)

  /** `response.Contents || []`. */
  function Objects(contents: Option<seq<S3Object>>): (objs: seq<S3Object>)
    ensures contents.None? ==> objs == []
    ensures contents.Some? ==> objs == contents.value
  {
    contents.GetOr([])
  }

  /** `obj.Key?.split('/').pop()` is truthy: the key exists and its basename is not empty. */
  predicate Named(o: S3Object)
  {
    o.key.Some? && Basename(o.key.value) != ""
  }

  function NameOf(o: S3Object): (name: string)
    requires Named(o)
    ensures name != "" && Slash !in name
  {
    Basename(o.key.value)
  }

  /** The public, virtual-hosted URL of an object: the bucket's host, "/", then the
      full key, not its basename (line 28); so its basename is the key's basename. */
  function PublicUrl(bucket: string, region: string, key: string): (url: string)
    ensures url == Host(bucket, region) + [Slash] + key
    ensures url[|url| - |key|..] == key
    ensures Basename(url) == Basename(key)
  {
    BasenameAfterSlash(Host(bucket, region), key);
    Host(bucket, region) + "/" + key
  }

  /** The bucket's virtual-hosted endpoint. */
  function Host(bucket: string, region: string): (host: string)
  {
    "https://" + bucket + ".s3." + region + ".amazonaws.com"
  }

  /** The names in `seen` after the loop has passed over `objs`: every name carried by
      one of them (a name is added the first time it is met, and is already there
      every later time). */
  function SeenNames(objs: seq<S3Object>): (names: set<string>)
    ensures forall j :: 0 <= j < |objs| && Named(objs[j]) ==> NameOf(objs[j]) in names
    ensures forall name :: name in names ==>
      exists j :: 0 <= j < |objs| && Named(objs[j]) && NameOf(objs[j]) == name
  {
    set j | 0 <= j < |objs| && Named(objs[j]) :: NameOf(objs[j])
  }

  /** Object `j` is the first in the listing to carry its name. */
  ghost predicate IsFirst(objs: seq<S3Object>, j: int)
    requires 0 <= j < |objs|
  {
    Named(objs[j]) &&
    forall i :: 0 <= i < j && Named(objs[i]) ==> NameOf(objs[i]) != NameOf(objs[j])
  }

  /** The positions of the objects the loop keeps, in listing order: exactly the first
      occurrences of every name. */
  function KeptIndices(objs: seq<S3Object>): (idx: seq<nat>)
    ensures |idx| <= |objs|
    ensures forall m :: 0 <= m < |idx| ==> idx[m] < |objs| && IsFirst(objs, idx[m])
    ensures forall m, m' :: 0 <= m < m' < |idx| ==> idx[m] < idx[m']
    ensures forall j :: 0 <= j < |objs| && IsFirst(objs, j) ==> j in idx
    decreases |objs|
  {
    if objs == [] then []
    else
      var n := |objs| - 1;
      var before := objs[..n];
      var prev := KeptIndices(before);
      IsFirstOfPrefix(objs, n);
      IsFirstOfLast(objs);
      if Named(objs[n]) && NameOf(objs[n]) !in SeenNames(before) then prev + [n] else prev
  }

  lemma IsFirstOfPrefix(objs: seq<S3Object>, n: nat)
    requires n <= |objs|
    ensures forall j :: 0 <= j < n ==> (IsFirst(objs[..n], j) <==> IsFirst(objs, j))
  {
    assert forall j :: 0 <= j < n ==> objs[..n][j] == objs[j];
  }

  /** The loop's test `!name || seen.has(name)` fails exactly at first occurrences. */
  lemma IsFirstOfLast(objs: seq<S3Object>)
    requires |objs| > 0
    ensures var n := |objs| - 1;
      IsFirst(objs, n) <==> Named(objs[n]) && NameOf(objs[n]) !in SeenNames(objs[..n])
  {
    var n := |objs| - 1;
    assert forall j :: 0 <= j < n ==> objs[..n][j] == objs[j];
  }

  /** The full keys of the kept objects, in listing order. */
  function KeptKeys(objs: seq<S3Object>): (keys: seq<string>)
    ensures |keys| == |KeptIndices(objs)| <= |objs|
    ensures forall m :: 0 <= m < |keys| ==>
      objs[KeptIndices(objs)[m]].key == Some(keys[m]) && Basename(keys[m]) != ""
    ensures forall m, m' :: 0 <= m < m' < |keys| ==> Basename(keys[m]) != Basename(keys[m'])
  {
    var idx := KeptIndices(objs);
    seq(|idx|, m requires 0 <= m < |idx| => objs[idx[m]].key.value)
  }

  /** The URLs of `keys`, in order. */
  function Urls(bucket: string, region: string, keys: seq<string>): (urls: seq<string>)
    ensures |urls| == |keys|
    ensures forall m :: 0 <= m < |keys| ==> urls[m] == PublicUrl(bucket, region, keys[m])
  {
    seq(|keys|, m requires 0 <= m < |keys| => PublicUrl(bucket, region, keys[m]))
  }

  lemma SeenNamesSnoc(objs: seq<S3Object>, i: nat)
    requires i < |objs|
    ensures SeenNames(objs[..i + 1]) ==
      SeenNames(objs[..i]) + (if Named(objs[i]) then {NameOf(objs[i])} else {})
  {
    var a, b := objs[..i + 1], objs[..i];
    assert forall j :: 0 <= j < i ==> a[j] == b[j];
    assert a[i] == objs[i];
  }

  /** The handler. `bucket` and `region` are `NEXT_PUBLIC_BUCKET` and
      `NEXT_PUBLIC_REGION`, which name the URLs' host; the listed bucket
      (`AWS_S3_BUCKET_NAME`) is whatever produced `listing`. */
  method ListUploads(listing: Listing, bucket: string, region: string)
    returns (reply: Response<seq<string>>)
    ensures listing.ListFailed? ==> reply == Failure(StatusInternalError, ListErrorMessage)
    ensures listing.Listed? ==>
      reply == Success(Urls(bucket, region, KeptKeys(Objects(listing.contents))))
  {
    if listing.ListFailed? {
      return Failure(StatusInternalError, ListErrorMessage);
    }
    var objs := Objects(listing.contents);
    var seen: set<string> := {};
    var urls: seq<string> := [];
    var i := 0;
    while i < |objs|
      invariant 0 <= i <= |objs|
      invariant seen == SeenNames(objs[..i])
      invariant urls == Urls(bucket, region, KeptKeys(objs[..i]))
    {
      var obj := objs[i];
      SeenNamesSnoc(objs, i);
      KeptKeysSnoc(objs, i);
      if obj.key.Some? {
        var name := Basename(obj.key.value);
        if name != "" && name !in seen {
          UrlsSnoc(bucket, region, KeptKeys(objs[..i]), obj.key.value);
          seen := seen + {name};
          urls := urls + [PublicUrl(bucket, region, obj.key.value)];
        }
      }
      i := i + 1;
    }
    assert objs[..|objs|] == objs;
    reply := Success(urls);
  }

  lemma UrlsSnoc(bucket: string, region: string, keys: seq<string>, key: string)
    ensures Urls(bucket, region, keys + [key]) == Urls(bucket, region, keys) + [PublicUrl(bucket, region, key)]
  {
  }

  /** How the kept keys grow by one step of the loop. */
  lemma KeptKeysSnoc(objs: seq<S3Object>, i: nat)
    requires i < |objs|
    ensures KeptKeys(objs[..i + 1]) ==
      if Named(objs[i]) && NameOf(objs[i]) !in SeenNames(objs[..i])
      then KeptKeys(objs[..i]) + [objs[i].key.value]
      else KeptKeys(objs[..i])
  {
    var a := objs[..i + 1];
    assert a[..i] == objs[..i];
    var ia, ib := KeptIndices(a), KeptIndices(objs[..i]);
    var ka, kb := KeptKeys(a), KeptKeys(objs[..i]);
    assert forall m :: 0 <= m < |ib| ==> ka[m] == kb[m] by {
      forall m | 0 <= m < |ib| ensures ka[m] == kb[m] {
        assert ia[m] == ib[m];
        assert a[ib[m]] == objs[..i][ib[m]];
      }
    }
  }

  /** Some object at or before `j` is the first to carry `j`'s name. */
  lemma {:induction false} FirstOccurrenceExists(objs: seq<S3Object>, j: nat)
    requires j < |objs| && Named(objs[j])
    ensures exists f :: 0 <= f <= j && IsFirst(objs, f) && NameOf(objs[f]) == NameOf(objs[j])
    decreases j
  {
    if !IsFirst(objs, j) {
      var i :| 0 <= i < j && Named(objs[i]) && NameOf(objs[i]) == NameOf(objs[j]);
      FirstOccurrenceExists(objs, i);
    }
  }

  /** Every name carried by some listed object is the basename of exactly one kept key. */
  lemma EveryNameKeptOnce(objs: seq<S3Object>, j: nat)
    requires j < |objs| && Named(objs[j])
    ensures var keys := KeptKeys(objs);
      exists m :: 0 <= m < |keys| && Basename(keys[m]) == NameOf(objs[j]) &&
        forall m' :: 0 <= m' < |keys| && Basename(keys[m']) == NameOf(objs[j]) ==> m' == m
  {
    var keys, idx := KeptKeys(objs), KeptIndices(objs);
    FirstOccurrenceExists(objs, j);
    var f :| 0 <= f <= j && IsFirst(objs, f) && NameOf(objs[f]) == NameOf(objs[j]);
    var m :| 0 <= m < |idx| && idx[m] == f;
    assert Basename(keys[m]) == NameOf(objs[j]);
  }

  /** A kept key comes from the first object to carry its name, so the output keeps
      first occurrences, in listing order. */
  lemma KeptAreFirstOccurrences(objs: seq<S3Object>, m: nat)
    requires m < |KeptKeys(objs)|
    ensures var f := KeptIndices(objs)[m];
      objs[f].key == Some(KeptKeys(objs)[m]) &&
      forall i :: 0 <= i < f && Named(objs[i]) ==> NameOf(objs[i]) != Basename(KeptKeys(objs)[m])
  {
  }

  /** An object whose key is missing, or ends in "/", or has no "/"-free tail, yields no URL. */
  lemma UnnamedObjectsSkipped(objs: seq<S3Object>, j: nat)
    requires j < |objs| && !Named(objs[j])
    ensures j !in KeptIndices(objs)
  {
  }

  /** A key ending in "/" (a folder placeholder) is never named. */
  lemma FolderKeyUnnamed(key: string)
    requires |key| > 0 && key[|key| - 1] == Slash
    ensures !Named(S3Object(Some(key)))
  {
    BasenameOfFolderKey(key);
  }

  /** A listing without `Contents` answers 200 with no URLs. */
  lemma NoContentsNoUrls(bucket: string, region: string)
    ensures KeptKeys(Objects(None)) == [] && Urls(bucket, region, KeptKeys(Objects(None))) == []
  {
  }
}
