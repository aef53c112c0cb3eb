/**
 * Where an upload is stored and how it is addressed: the object key built
 * from the upload time and the original file name, and the public URL the
 * gateway reports for a key.
 */
module Naming {
  import opened Text
  import Percent
  import Results
  import Seqs

  /** Every object the gateway writes, and every listing it asks for, is under this prefix. */
  const UploadPrefix := "uploads/"

  function StampChar(c: char): char {
    if c == ':' || c == '.' then '-' else c
  }

  /** `iso.replace(/[:.]/g, '-')`. */
  function DashStamp(iso: string): (r: string)
    ensures |r| == |iso|
    ensures ':' !in r && '.' !in r
    ensures forall i | 0 <= i < |iso| :: r[i] == StampChar(iso[i])
  {
    if iso == [] then [] else [StampChar(iso[0])] + DashStamp(iso[1..])
  }

  /** `name.replace(/\s+/g, '_')`: each maximal run of whitespace becomes one `_`. */
  function SanitizeName(name: string): string
    decreases |name|
  {
    if name == [] then []
    else if IsJsSpace(name[0]) then
      TrimStartDrops(name);
      "_" + SanitizeName(TrimStart(name))
    else [name[0]] + SanitizeName(name[1..])
  }

  /** `uploads/<timestamp>-<name>`, from `toISOString()` of the upload time and the file's original name. */
  function ObjectKey(iso: string, name: string): string {
    UploadPrefix + DashStamp(iso) + "-" + SanitizeName(name)
  }

  /** The part of the public URL before the encoded key. */
  function UrlBase(bucket: string, region: string): string {
    "https://" + bucket + ".s3." + region + ".amazonaws.com/"
  }

  /** The virtual-hosted URL of `key`, the key put through `encodeURI`. */
  function PublicUrl(bucket: string, region: string, key: string): string {
    UrlBase(bucket, region) + Percent.Encode(Percent.WholeUri, key)
  }

  // ---- Sanitised names ----

  /** No whitespace survives sanitising. */
  lemma {:induction false} SanitizeNoSpace(name: string)
    ensures NoSpace(SanitizeName(name))
    decreases |name|
  {
    if name != [] {
      if IsJsSpace(name[0]) {
        TrimStartDrops(name);
        SanitizeNoSpace(TrimStart(name));
      } else {
        SanitizeNoSpace(name[1..]);
      }
    }
  }

  /** A name without whitespace is kept as it is. */
  lemma {:induction false} SanitizeClean(name: string)
    requires NoSpace(name)
    ensures SanitizeName(name) == name
  {
    if name != [] {
      SanitizeClean(name[1..]);
    }
  }

  /** A non-empty run of whitespace alone becomes a single `_`. */
  lemma SanitizeRun(w: string)
    requires w != [] && forall i | 0 <= i < |w| :: IsJsSpace(w[i])
    ensures SanitizeName(w) == "_"
  {
    TrimStartDrops(w);
  }

  lemma {:induction false} TrimStartAppend(a: string, r: string)
    requires r == [] || !IsJsSpace(r[0])
    ensures TrimStart(a + r) == TrimStart(a) + r
  {
    if a == [] {
      assert a + r == r;
    } else if IsJsSpace(a[0]) {
      TrimStartAppend(a[1..], r);
      Seqs.TailConcat(a, r);
    }
  }

  /** Runs never reach across a non-space character: sanitising splits there. */
  lemma {:induction false} SanitizeAround(a: string, c: char, b: string)
    requires !IsJsSpace(c)
    ensures SanitizeName(a + [c] + b) == SanitizeName(a) + [c] + SanitizeName(b)
    decreases |a|
  {
    var rest := [c] + b;
    assert a + [c] + b == a + rest;
    SanitizeTail(a, rest);
    assert rest[1..] == b;
  }

  lemma {:induction false} SanitizeTail(a: string, rest: string)
    requires rest != [] && !IsJsSpace(rest[0])
    ensures SanitizeName(a + rest) == SanitizeName(a) + SanitizeName(rest)
    decreases |a|
  {
    if a == [] {
      assert a + rest == rest;
    } else {
      Seqs.TailConcat(a, rest);
      if IsJsSpace(a[0]) {
        TrimStartDrops(a);
        TrimStartAppend(a, rest);
        var t := TrimStart(a);
        SanitizeTail(t, rest);
        Seqs.Associates("_", SanitizeName(t), SanitizeName(rest));
      } else {
        SanitizeTail(a[1..], rest);
        Seqs.Associates([a[0]], SanitizeName(a[1..]), SanitizeName(rest));
      }
    }
  }

  // ---- Keys ----

  /**
   * A key is the prefix, the timestamp with `:` and `.` made `-`, a `-`, and
   * the sanitised name; the timestamp's length locates each part.
   */
  lemma KeyParts(iso: string, name: string)
    ensures var key := ObjectKey(iso, name);
      && |key| == |UploadPrefix| + |iso| + 1 + |SanitizeName(name)|
      && key[..|UploadPrefix|] == UploadPrefix
      && key[|UploadPrefix|..|UploadPrefix| + |iso|] == DashStamp(iso)
      && key[|UploadPrefix| + |iso|] == '-'
      && key[|UploadPrefix| + |iso| + 1..] == SanitizeName(name)
      && ':' !in DashStamp(iso) && '.' !in DashStamp(iso)
      && NoSpace(SanitizeName(name))
  {
    SanitizeNoSpace(name);
    var key := ObjectKey(iso, name);
    assert key == UploadPrefix + (DashStamp(iso) + ("-" + SanitizeName(name)));
  }

  /** Uploads are stored under the prefix the search lists. */
  lemma KeyUnderPrefix(iso: string, name: string)
    ensures |ObjectKey(iso, name)| >= |UploadPrefix|
    ensures ObjectKey(iso, name)[..|UploadPrefix|] == UploadPrefix
  {
    KeyParts(iso, name);
  }

  // ---- URLs ----

  /** The URL is its base followed by the encoded key, and that tail percent-decodes back to the key. */
  lemma UrlDecodesToKey(bucket: string, region: string, key: string)
    ensures var url, base := PublicUrl(bucket, region, key), UrlBase(bucket, region);
      && |base| <= |url| && url[..|base|] == base
      && Percent.Decode(url[|base|..]) == Results.Ok(key)
  {
    var base := UrlBase(bucket, region);
    assert PublicUrl(bucket, region, key)[|base|..] == Percent.Encode(Percent.WholeUri, key);
    Percent.DecodeEncode(Percent.WholeUri, key);
  }

  lemma PrefixUnescaped()
    ensures Percent.Encode(Percent.WholeUri, UploadPrefix) == UploadPrefix
  {
    Percent.EncodeUnescaped(Percent.WholeUri, UploadPrefix);
  }

  /** `encodeURI` keeps `/`, so an upload's URL path still starts with the prefix. */
  lemma UploadUrlPath(bucket: string, region: string, iso: string, name: string)
    ensures var key := ObjectKey(iso, name);
      PublicUrl(bucket, region, key) ==
        UrlBase(bucket, region) + UploadPrefix + Percent.Encode(Percent.WholeUri, key[|UploadPrefix|..])
  {
    var d, n := DashStamp(iso), SanitizeName(name);
    var rest := d + "-" + n;
    Seqs.Associates(UploadPrefix, d, "-");
    Seqs.Associates(UploadPrefix, d + "-", n);
    Seqs.DropPrefix(UploadPrefix, rest);
    Percent.EncodeConcat(Percent.WholeUri, UploadPrefix, rest);
    PrefixUnescaped();
    Seqs.Associates(UrlBase(bucket, region), UploadPrefix, Percent.Encode(Percent.WholeUri, rest));
  }
}
