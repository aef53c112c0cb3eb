/**
 * The two request handlers of the gateway, upload and search, each with the
 * configuration guard in front of it. A handler gives the response it sends
 * and the calls it makes on the object store, in order.
 */
module Gateway {
  import opened Results
  import Percent
  import Config
  import Keywords
  import Naming
  import Search

  /** The `image` part of an upload form as the multipart parser holds it in memory. */
  datatype UploadedFile = UploadedFile(originalName: string, mimeType: string, bytes: seq<Byte>)

  /** The parameters of the put: `Metadata.originalname` is the sanitised name. */
  datatype PutRequest = PutRequest(
    bucket: string,
    key: string,
    body: seq<Byte>,
    contentType: string,
    tagging: Option<string>,
    originalName: string)

  /** A request the gateway sends to the object store. */
  datatype StoreCall =
    | PutObject(put: PutRequest)
    | ListObjects(bucket: string, prefix: string)
    | GetObjectTagging(bucket: string, key: string)

  datatype UploadResponse =
    | Uploaded(key: string, url: string, keywords: seq<string>)
    | NoImage
    | UploadNotConfigured(missing: seq<string>)
    | UploadFailed(details: string)

  datatype SearchResponse =
    | Found(items: seq<Search.Item>)
    | SearchNotConfigured(missing: seq<string>)
    | SearchFailed(details: string)

  const NotConfigured := "Server not configured"

  /** The HTTP status of an upload answer: 500 for the guard, 400 for no image (index.js:47), 500 for a failed put. */
  function UploadStatus(r: UploadResponse): int {
    match r
    case Uploaded(_, _, _) => 200
    case NoImage => 400
    case _ => 500
  }

  /** The `error` field of the body; a successful upload has none. */
  function UploadError(r: UploadResponse): Option<string> {
    match r
    case Uploaded(_, _, _) => None
    case NoImage => Some("No image uploaded")
    case UploadNotConfigured(_) => Some(NotConfigured)
    case UploadFailed(_) => Some("Upload failed")
  }

  /** The HTTP status of a search answer: only the item list is a 200. */
  function SearchStatus(r: SearchResponse): int {
    if r.Found? then 200 else 500
  }

  /** The `error` field of the body; a successful search has none. */
  function SearchError(r: SearchResponse): Option<string> {
    match r
    case Found(_) => None
    case SearchNotConfigured(_) => Some(NotConfigured)
    case SearchFailed(_) => Some("Search failed")
  }

  /** The put the upload handler sends for a file, a keywords field and the upload time. */
  function PutFor(s: Config.Settings, file: UploadedFile, keywordsField: Option<string>, isoNow: string): PutRequest {
    PutRequest(
      s.bucketName,
      Naming.ObjectKey(isoNow, file.originalName),
      file.bytes,
      file.mimeType,
      Keywords.Tagging(Keywords.Normalize(keywordsField)),
      Naming.SanitizeName(file.originalName))
  }

  /**
   * `POST /api/upload`. The guard runs before the form is even looked at; the
   * put is the only store call, and its failure (`putError`) becomes a 500.
   */
  method HandleUpload(s: Config.Settings, file: Option<UploadedFile>, keywordsField: Option<string>,
                      isoNow: string, putError: Option<string>)
    returns (resp: UploadResponse, calls: seq<StoreCall>)
    ensures Config.MissingSettings(s) != [] ==>
      resp == UploadNotConfigured(Config.MissingSettings(s)) && calls == []
    ensures Config.MissingSettings(s) == [] && file.None? ==> resp == NoImage && calls == []
    ensures Config.MissingSettings(s) == [] && file.Some? ==>
      && calls == [PutObject(PutFor(s, file.value, keywordsField, isoNow))]
      && (putError.Some? ==> resp == UploadFailed(putError.value))
      && (putError.None? ==>
            var key := Naming.ObjectKey(isoNow, file.value.originalName);
            resp == Uploaded(key, Naming.PublicUrl(s.bucketName, s.region, key), Keywords.Normalize(keywordsField)))
    ensures UploadStatus(resp) ==
      if Config.MissingSettings(s) == [] && file.None? then 400
      else if Config.MissingSettings(s) == [] && putError.None? then 200
      else 500
    ensures UploadError(resp) ==
      if Config.MissingSettings(s) != [] then Some(NotConfigured)
      else if file.None? then Some("No image uploaded")
      else if putError.Some? then Some("Upload failed")
      else None
  {
    var missing := Config.RequireConfig(s);
    if missing != [] {
      resp, calls := UploadNotConfigured(missing), [];
      return;
    }
    if file.None? {
      resp, calls := NoImage, [];
      return;
    }
    var f := file.value;
    var originalName := Naming.SanitizeName(f.originalName);
    var key := Naming.UploadPrefix + Naming.DashStamp(isoNow) + "-" + originalName;
    var keywords := Keywords.Normalize(keywordsField);
    var put := PutRequest(s.bucketName, key, f.bytes, f.mimeType, Keywords.Tagging(keywords), originalName);
    calls := [PutObject(put)];
    if putError.Some? {
      resp := UploadFailed(putError.value);
      return;
    }
    var url := Naming.UrlBase(s.bucketName, s.region) + Percent.Encode(Percent.WholeUri, key);
    resp := Uploaded(key, url, keywords);
  }

  /** The tag-set requests for `keys`, in order. */
  function TagCalls(bucket: string, keys: seq<string>): (r: seq<StoreCall>)
    ensures |r| == |keys|
    ensures forall i | 0 <= i < |keys| :: r[i] == GetObjectTagging(bucket, keys[i])
  {
    if keys == [] then [] else TagCalls(bucket, keys[..|keys| - 1]) + [GetObjectTagging(bucket, keys[|keys| - 1])]
  }

  /**
   * `GET /api/search`. After the guard: one listing under the upload prefix,
   * then one tag-set request per examined object until one fails; the requests
   * stop at the first failing object. Any store or decoding failure gives a
   * 500 with no items.
   */
  method HandleSearch(s: Config.Settings, qParam: Option<string>,
                      listing: Result<Search.ListReply, string>, tags: Search.TagLookup)
    returns (resp: SearchResponse, calls: seq<StoreCall>)
    ensures Config.MissingSettings(s) != [] ==>
      resp == SearchNotConfigured(Config.MissingSettings(s)) && calls == []
    ensures Config.MissingSettings(s) == [] ==>
      && |calls| >= 1
      && calls[0] == ListObjects(s.bucketName, Naming.UploadPrefix)
      && (listing.Err? ==> resp == SearchFailed(listing.error) && calls == calls[..1])
    ensures Config.MissingSettings(s) == [] && listing.Ok? ==>
      var objs := listing.value.contents.GetOr([]);
      var keys := Search.ExaminedKeys(objs);
      match Search.Run(Search.Site(s.bucketName, s.region), Search.Query(qParam), objs, tags)
      case Ok(items) => resp == Found(items) && calls[1..] == TagCalls(s.bucketName, keys)
      case Err(e) =>
        && resp == SearchFailed(e)
        && calls[1..] <= TagCalls(s.bucketName, keys)
        && exists i :: Search.FirstFailure(Search.Site(s.bucketName, s.region), Search.Query(qParam), objs, tags, i, e)
                     && calls[1..] == TagCalls(s.bucketName, Search.ExaminedKeys(objs[..i + 1]))
    ensures SearchStatus(resp) == 200 <==>
      && Config.MissingSettings(s) == [] && listing.Ok?
      && Search.Run(Search.Site(s.bucketName, s.region), Search.Query(qParam),
                    listing.value.contents.GetOr([]), tags).Ok?
    ensures SearchStatus(resp) in {200, 500}
    ensures SearchError(resp) ==
      if Config.MissingSettings(s) != [] then Some(NotConfigured)
      else if SearchStatus(resp) == 500 then Some("Search failed")
      else None
  {
    var missing := Config.RequireConfig(s);
    if missing != [] {
      resp, calls := SearchNotConfigured(missing), [];
      return;
    }
    var q := Search.Query(qParam);
    calls := [ListObjects(s.bucketName, Naming.UploadPrefix)];
    if listing.Err? {
      resp := SearchFailed(listing.error);
      return;
    }
    var objs := listing.value.contents.GetOr([]);
    var r, fetched := Search.SearchObjects(Search.Site(s.bucketName, s.region), q, objs, tags);
    calls := calls + TagCalls(s.bucketName, fetched);
    assert calls[1..] == TagCalls(s.bucketName, fetched);
    TagCallsPrefix(s.bucketName, fetched, Search.ExaminedKeys(objs));
    if r.Err? {
      var i :| Search.FirstFailure(Search.Site(s.bucketName, s.region), q, objs, tags, i, r.error)
               && fetched == Search.ExaminedKeys(objs[..i + 1]);
      resp := SearchFailed(r.error);
    } else {
      resp := Found(r.value);
    }
  }

  lemma TagCallsPrefix(bucket: string, a: seq<string>, b: seq<string>)
    requires a <= b
    ensures TagCalls(bucket, a) <= TagCalls(bucket, b)
  {
  }

  // ---- Properties of the handlers ----

  /**
   * An uploaded object, once examined with the tag set S3 keeps from its put,
   * is returned by a search exactly when the query is empty or some keyword
   * contains it, with the URL and keywords the upload reported.
   */
  lemma UploadedObjectFound(s: Config.Settings, iso: string, file: UploadedFile, field: Option<string>,
                            size: int, q: string, reply: Keywords.TagReply)
    requires '|' !in field.GetOr([]) && '%' !in field.GetOr([])
    requires size != 0
    requires Keywords.S3Keeps(PutFor(s, file, field, iso).tagging) == Some(reply)
    ensures var key, ks := PutFor(s, file, field, iso).key, Keywords.Normalize(field);
      Search.Examine(Search.Site(s.bucketName, s.region), q, Search.ListedObject(Some(key), Some(size)), k => Ok(reply))
        == if Search.Matches(q, ks)
           then Ok(Some(Search.Item(key, Naming.PublicUrl(s.bucketName, s.region, key), ks)))
           else Ok(None)
  {
    Naming.KeyUnderPrefix(iso, file.originalName);
    Keywords.S3KeepsTagging(Keywords.Normalize(field));
    Keywords.UploadedKeywordsReadBack(field);
  }

  /**
   * If S3 accepts the tag value of an upload with the keyword field `5%`, that
   * one upload is enough to make every later search that examines the object
   * fail, whatever the query: the stored tag does not decode a second time.
   */
  lemma PercentKeywordBreaksSearch(site: Search.Site, q: string, objs: seq<Search.ListedObject>,
                                   tags: Search.TagLookup, i: int)
    requires 0 <= i < |objs| && Search.Examined(objs[i])
    requires tags(objs[i].key.value) == Ok(Keywords.StoredTags(Keywords.Normalize(Some("5%"))))
    ensures Search.Run(site, q, objs, tags).Err?
  {
    Keywords.PercentBreaksReadBack();
    assert Search.Examine(site, q, objs[i], tags) == Err(Percent.UriMalformed);
    Search.RunFailure(site, q, objs, tags);
  }
}
