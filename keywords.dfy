/**
 * The keyword list of an upload: how the comma-separated form field is
 * normalised, how the list is written as the object's `keywords` tag, and
 * how a search reads it back from the tag set the store returns.
 */
module Keywords {
  import opened Results
  import opened Text
  import Percent
  import Seqs

  /** The name of the one tag the gateway writes and reads. */
  const TagKey := "keywords"

  /** One field of the form value after `s.trim().toLowerCase()`. */
  function CleanField(f: string): string {
    ToLower(Trim(f))
  }

  /** What normalisation promises of each keyword it keeps. */
  predicate IsKeyword(k: string) {
    k != [] && Trimmed(k) && IsLowercase(k) && ',' !in k
  }

  /** A cleaned field is trimmed and lower-case, is empty exactly when the field is blank, and has no character the field lacks other than a lowered letter. */
  lemma CleanFieldFacts(f: string)
    ensures Trimmed(CleanField(f)) && IsLowercase(CleanField(f))
    ensures CleanField(f) == [] <==> forall i | 0 <= i < |f| :: IsJsSpace(f[i])
    ensures forall c | c in CleanField(f) && !('a' <= c <= 'z') :: c in f
  {
    var t := Trim(f);
    var r := ToLower(t);
    LowerFacts(t);
    TrimEmpty(f);
    TrimInfix(f);
    var i := |f| - |TrimStart(f)|;
    forall c | c in r && !('a' <= c <= 'z') ensures c in f {
      var j :| 0 <= j < |r| && r[j] == c;
      assert t[j] == f[i + j];
    }
    if r != [] {
      assert IsJsSpace(r[0]) <==> IsJsSpace(t[0]);
      assert IsJsSpace(r[|r| - 1]) <==> IsJsSpace(t[|t| - 1]);
    }
  }

  /** `.map(s => s.trim().toLowerCase()).filter(Boolean)` over the fields. */
  function CleanAll(fs: seq<string>): seq<string> {
    if fs == [] then [] else Nonblank(CleanField(fs[0])) + CleanAll(fs[1..])
  }

  /** `filter(Boolean)` on one entry: the empty string is dropped. */
  function Nonblank(k: string): seq<string> {
    if k == [] then [] else [k]
  }

  /** What is kept is no longer than the fields; each kept entry is a keyword when no field holds a comma. */
  lemma {:induction false} CleanAllFacts(fs: seq<string>)
    ensures |CleanAll(fs)| <= |fs|
    ensures (forall j | 0 <= j < |fs| :: ',' !in fs[j]) ==> forall j | 0 <= j < |CleanAll(fs)| :: IsKeyword(CleanAll(fs)[j])
  {
    if fs != [] {
      CleanAllFacts(fs[1..]);
      CleanFieldFacts(fs[0]);
    }
  }

  /** The keyword list of an upload whose `keywords` form field is `field` (absent reads as the empty string). */
  function Normalize(field: Option<string>): (ks: seq<string>)
    ensures forall j | 0 <= j < |ks| :: IsKeyword(ks[j])
    ensures |ks| <= |Split(field.GetOr([]), ',')|
  {
    CleanAllFacts(Split(field.GetOr([]), ','));
    SplitFields(field.GetOr([]), ',');
    CleanAll(Split(field.GetOr([]), ','))
  }

  lemma {:induction false} CleanAllConcat(xs: seq<string>, ys: seq<string>)
    ensures CleanAll(xs + ys) == CleanAll(xs) + CleanAll(ys)
  {
    if xs == [] {
      assert xs + ys == ys;
    } else {
      Seqs.TailConcat(xs, ys);
      CleanAllConcat(xs[1..], ys);
      Seqs.Associates(Nonblank(CleanField(xs[0])), CleanAll(xs[1..]), CleanAll(ys));
    }
  }

  /** Order is kept: the keywords of the fields before a comma come first, then those after it. */
  lemma NormalizeAround(a: string, b: string)
    ensures Normalize(Some(a + [','] + b)) == Normalize(Some(a)) + Normalize(Some(b))
  {
    SplitAround(a, b, ',');
    CleanAllConcat(Split(a, ','), Split(b, ','));
  }

  /** A single field yields its cleaned form, or nothing when it is blank. */
  lemma NormalizeField(f: string)
    requires ',' !in f
    ensures Normalize(Some(f)) == if CleanField(f) == [] then [] else [CleanField(f)]
  {
    SplitWithout(f, ',');
  }

  /** `NormalizeAround` at a comma found at index `i`. */
  lemma NormalizeAt(s: string, i: nat)
    requires i < |s| && s[i] == ','
    ensures Normalize(Some(s)) == Normalize(Some(s[..i])) + Normalize(Some(s[i + 1..]))
  {
    NormalizeAround(s[..i], s[i + 1..]);
    Seqs.SplitAt(s, i);
  }

  /** Every character is whitespace or a comma. */
  predicate Blank(s: string) {
    forall i | 0 <= i < |s| :: IsJsSpace(s[i]) || s[i] == ','
  }

  /** The list is empty exactly when the field is absent or holds only whitespace and commas. */
  lemma {:induction false} NormalizeEmpty(field: Option<string>)
    ensures Normalize(field) == [] <==> Blank(field.GetOr([]))
    decreases |field.GetOr([])|
  {
    var s := field.GetOr([]);
    assert Normalize(field) == Normalize(Some(s));
    if ',' !in s {
      NormalizeField(s);
      CleanFieldFacts(s);
    } else {
      var i :| 0 <= i < |s| && s[i] == ',';
      var a, b := s[..i], s[i + 1..];
      NormalizeAt(s, i);
      NormalizeEmpty(Some(a));
      NormalizeEmpty(Some(b));
      BlankAround(s, i);
    }
  }

  lemma BlankAround(s: string, i: nat)
    requires i < |s| && s[i] == ','
    ensures Blank(s) <==> Blank(s[..i]) && Blank(s[i + 1..])
  {
    var a, b := s[..i], s[i + 1..];
    assert forall j | 0 <= j < |a| :: a[j] == s[j];
    assert forall j | 0 <= j < |b| :: b[j] == s[i + 1 + j];
    if Blank(a) && Blank(b) {
      forall j | 0 <= j < |s| ensures IsJsSpace(s[j]) || s[j] == ',' {
        if j < i { assert s[j] == a[j]; } else if j > i { assert s[j] == b[j - i - 1]; }
      }
    }
  }

  /** The value of the `keywords` tag: the list joined with `|`, then put through `encodeURIComponent`. */
  function TagValue(ks: seq<string>): string {
    Percent.Encode(Percent.Component, Join(ks, '|'))
  }

  /** The `Tagging` parameter of the put: present only when there is a keyword. */
  function Tagging(ks: seq<string>): (t: Option<string>)
    ensures t.Some? <==> |ks| > 0
    ensures t.Some? ==>
      && |t.value| > |TagKey| && t.value[..|TagKey| + 1] == TagKey + "="
      && Percent.Decode(t.value[|TagKey| + 1..]) == Ok(Join(ks, '|'))
  {
    if |ks| > 0 then
      Percent.DecodeEncode(Percent.Component, Join(ks, '|'));
      Seqs.DropPrefix(TagKey + "=", TagValue(ks));
      Some(TagKey + "=" + TagValue(ks))
    else None
  }

  datatype Tag = Tag(key: string, value: Option<string>)

  /** The reply to a tag-set request; an absent `TagSet` reads as empty. */
  datatype TagReply = TagReply(tagSet: Option<seq<Tag>>)

  /** `tags.find(t => t.Key === key)`: the first tag with that key. */
  function FindTag(tags: seq<Tag>, key: string): (r: Option<Tag>)
    ensures r.None? <==> forall i | 0 <= i < |tags| :: tags[i].key != key
    ensures r.Some? ==> exists i | 0 <= i < |tags| ::
      tags[i] == r.value && r.value.key == key && forall j | 0 <= j < i :: tags[j].key != key
  {
    if tags == [] then None
    else if tags[0].key == key then Some(tags[0])
    else
      var r := FindTag(tags[1..], key);
      FirstAfterHead(tags, key, r);
      r
  }

  lemma FirstAfterHead(tags: seq<Tag>, key: string, r: Option<Tag>)
    requires tags != [] && tags[0].key != key
    requires r.Some? ==> exists i | 0 <= i < |tags[1..]| ::
      tags[1..][i] == r.value && r.value.key == key && forall j | 0 <= j < i :: tags[1..][j].key != key
    ensures r.Some? ==> exists i | 0 <= i < |tags| ::
      tags[i] == r.value && r.value.key == key && forall j | 0 <= j < i :: tags[j].key != key
  {
    if r.Some? {
      var i :| 0 <= i < |tags[1..]| && tags[1..][i] == r.value && r.value.key == key
        && forall j | 0 <= j < i :: tags[1..][j].key != key;
      assert tags[i + 1] == r.value;
      assert forall j | 0 <= j < i + 1 :: tags[j].key != key by {
        forall j | 0 <= j < i + 1 ensures tags[j].key != key {
          if j > 0 { assert tags[j] == tags[1..][j - 1]; }
        }
      }
    }
  }

  /** The keyword list a search reads from an object's tag set; a malformed escape aborts with the decoder's error. */
  function StoredKeywords(reply: TagReply): Result<seq<string>, string> {
    match FindTag(reply.tagSet.GetOr([]), TagKey)
    case None => Ok([])
    case Some(t) =>
      match Percent.Decode(t.value.GetOr([]))
      case Err(e) => Err(e)
      case Ok(v) => Ok(Split(v, '|'))
  }

  /**
   * The tag set S3 hands back for an object put with `Tagging(ks)`. S3 reads
   * the `Tagging` parameter as a URL query string, so it stores, and later
   * returns, the value with its escapes decoded: the `|`-join itself.
   */
  function StoredTags(ks: seq<string>): TagReply {
    if |ks| > 0 then TagReply(Some([Tag(TagKey, Some(Join(ks, '|')))])) else TagReply(Some([]))
  }

  /**
   * The tag set S3 keeps for a put, from the put's `Tagging` parameter: none
   * without it; for the one-pair query string `keywords=<value>` the upload
   * handler sends, one `keywords` tag with the value percent-decoded. S3
   * refuses a put whose `Tagging` it cannot read (`None`); query strings of
   * any other shape are not modelled and are refused too.
   */
  function S3Keeps(tagging: Option<string>): Option<TagReply> {
    match tagging
    case None => Some(TagReply(Some([])))
    case Some(t) =>
      if |t| > |TagKey| && t[..|TagKey| + 1] == TagKey + "=" then
        match Percent.Decode(t[|TagKey| + 1..])
        case Ok(v) => Some(TagReply(Some([Tag(TagKey, Some(v))])))
        case Err(_) => None
      else None
  }

  /** What S3 keeps from the `Tagging` the upload sends is exactly `StoredTags`: the value is the plain `|`-join. */
  lemma S3KeepsTagging(ks: seq<string>)
    ensures S3Keeps(Tagging(ks)) == Some(StoredTags(ks))
  {
  }

  /** The tag set a store would hand back if it kept the value exactly as sent, escapes and all. */
  function EncodedTags(ks: seq<string>): TagReply {
    if |ks| > 0 then TagReply(Some([Tag(TagKey, Some(TagValue(ks)))])) else TagReply(Some([]))
  }

  lemma NoTagNoKeywords(reply: TagReply)
    requires forall i | 0 <= i < |reply.tagSet.GetOr([])| :: reply.tagSet.GetOr([])[i].key != TagKey
    ensures StoredKeywords(reply) == Ok([])
  {
  }

  /** A `keywords` tag that is present but has no value, or an empty one, reads as one empty keyword, not as none. */
  lemma EmptyTagOneEmptyKeyword(tags: seq<Tag>, v: Option<string>)
    requires FindTag(tags, TagKey) == Some(Tag(TagKey, v)) && v.GetOr([]) == []
    ensures StoredKeywords(TagReply(Some(tags))) == Ok([[]])
  {
    assert Split([], '|') == [[]];
  }

  /** Reading the tag back gives the list that was written, for one or more keywords without `|`. */
  lemma TagRoundTrip(ks: seq<string>, tags: seq<Tag>)
    requires |ks| > 0 && forall j | 0 <= j < |ks| :: '|' !in ks[j]
    requires FindTag(tags, TagKey) == Some(Tag(TagKey, Some(TagValue(ks))))
    ensures StoredKeywords(TagReply(Some(tags))) == Ok(ks)
  {
    Percent.DecodeEncode(Percent.Component, Join(ks, '|'));
    SplitJoin(ks, '|');
  }

  /**
   * An upload field without `|` and `%` is read back from S3 exactly as the
   * upload reported it: the search decodes a value that S3 already decoded,
   * which changes nothing when there is no `%`.
   */
  lemma UploadedKeywordsReadBack(field: Option<string>)
    requires '|' !in field.GetOr([]) && '%' !in field.GetOr([])
    ensures StoredKeywords(StoredTags(Normalize(field))) == Ok(Normalize(field))
  {
    var ks := Normalize(field);
    if |ks| > 0 {
      NormalizeAvoids(field.GetOr([]), '|');
      NormalizeAvoids(field.GetOr([]), '%');
      DecodedTagReadBack(ks);
    }
  }

  /** Against a store that kept the value as sent, any upload field without `|` would read back as reported. */
  lemma EncodedKeywordsReadBack(field: Option<string>)
    requires '|' !in field.GetOr([])
    ensures StoredKeywords(EncodedTags(Normalize(field))) == Ok(Normalize(field))
  {
    var ks := Normalize(field);
    if |ks| > 0 {
      NormalizeAvoids(field.GetOr([]), '|');
      TagRoundTrip(ks, [Tag(TagKey, Some(TagValue(ks)))]);
    }
  }

  /**
   * The value is decoded twice. Normalisation keeps a keyword holding a bare
   * `%`; if S3 accepts it as a tag value, it cannot be read back: decoding
   * the stored tag fails.
   */
  lemma PercentBreaksReadBack()
    ensures Normalize(Some("5%")) == ["5%"]
    ensures StoredKeywords(StoredTags(["5%"])) == Err(Percent.UriMalformed)
  {
    PercentKept();
    PercentRead();
  }

  lemma PercentKept()
    ensures Normalize(Some("5%")) == ["5%"]
  {
    PercentClean();
    NormalizeField("5%");
  }

  lemma PercentClean()
    ensures CleanField("5%") == "5%"
  {
    assert TrimStart("5%") == "5%" && TrimEnd("5%") == "5%";
    LowerAt("5%");
  }

  lemma PercentRead()
    ensures StoredKeywords(StoredTags(["5%"])) == Err(Percent.UriMalformed)
  {
    assert Join(["5%"], '|') == "5%";
    var tags := [Tag(TagKey, Some("5%"))];
    assert StoredTags(["5%"]) == TagReply(Some(tags));
    assert FindTag(tags, TagKey) == Some(tags[0]);
    assert Percent.DecodeEscape("%") == None;
    assert Percent.Decode("%") == Err(Percent.UriMalformed);
    assert "5%"[1..] == "%";
  }

  /** A character other than a letter that the field lacks, no keyword holds. */
  lemma NormalizeAvoids(s: string, c: char)
    requires c !in s && !('a' <= c <= 'z')
    ensures forall j | 0 <= j < |Normalize(Some(s))| :: c !in Normalize(Some(s))[j]
  {
    SplitKeepsOut(s, ',', c);
    CleanAllAvoids(Split(s, ','), c);
  }

  lemma {:induction false} SplitKeepsOut(s: string, d: char, c: char)
    requires c !in s
    ensures forall j | 0 <= j < |Split(s, d)| :: c !in Split(s, d)[j]
  {
    if s != [] {
      SplitKeepsOut(s[1..], d, c);
    }
  }

  lemma {:induction false} CleanAllAvoids(fs: seq<string>, c: char)
    requires !('a' <= c <= 'z')
    requires forall j | 0 <= j < |fs| :: c !in fs[j]
    ensures forall j | 0 <= j < |CleanAll(fs)| :: c !in CleanAll(fs)[j]
  {
    if fs != [] {
      CleanAllAvoids(fs[1..], c);
      CleanFieldFacts(fs[0]);
    }
  }

  /** A store that hands the value back already decoded gives the same list when no keyword holds `%` or `|`. */
  lemma DecodedTagReadBack(ks: seq<string>)
    requires |ks| > 0 && forall j | 0 <= j < |ks| :: '|' !in ks[j] && '%' !in ks[j]
    ensures StoredKeywords(TagReply(Some([Tag(TagKey, Some(Join(ks, '|')))]))) == Ok(ks)
  {
    JoinWithout(ks, '|', '%');
    Percent.DecodeWithoutPercent(Join(ks, '|'));
    SplitJoin(ks, '|');
  }

  lemma {:induction false} JoinWithout(ks: seq<string>, d: char, c: char)
    requires c != d && forall j | 0 <= j < |ks| :: c !in ks[j]
    ensures c !in Join(ks, d)
  {
    if |ks| > 1 {
      JoinWithout(ks[1..], d, c);
    }
  }

  /**
   * The separator is not escaped. A clean keyword holding `|` is kept whole on
   * upload; if S3 accepts `|` in a tag value, the keyword reads back as its
   * `|`-separated fields: one more than the number of `|` it holds.
   */
  lemma PipeSplitsKeyword(k: string)
    requires k != [] && ',' !in k && '%' !in k && CleanField(k) == k
    ensures Normalize(Some(k)) == [k]
    ensures StoredKeywords(StoredTags([k])) == Ok(Split(k, '|'))
    ensures |Split(k, '|')| == multiset(k)['|'] + 1
  {
    NormalizeField(k);
    Percent.DecodeWithoutPercent(k);
    var tags := [Tag(TagKey, Some(k))];
    assert Join([k], '|') == k;
    assert StoredTags([k]) == TagReply(Some(tags));
    assert FindTag(tags, TagKey) == Some(tags[0]);
    SplitCount(k, '|');
  }

  /** The keyword `a|b` is uploaded as one keyword and, if S3 keeps that tag value, found again as two, `a` and `b`. */
  lemma PipeExample()
    ensures Normalize(Some("a|b")) == ["a|b"]
    ensures StoredKeywords(StoredTags(["a|b"])) == Ok(["a", "b"])
  {
    PipeClean();
    PipeSplitsKeyword("a|b");
    PipeFields();
  }

  lemma PipeClean()
    ensures CleanField("a|b") == "a|b"
  {
    var k := "a|b";
    assert TrimStart(k) == k && TrimEnd(k) == k;
    LowerFacts(k);
  }

  lemma PipeFields()
    ensures Split("a|b", '|') == ["a", "b"]
  {
    SplitWithout("a", '|');
    SplitWithout("b", '|');
    assert "a|b" == "a" + ['|'] + "b";
    SplitAround("a", "b", '|');
  }

  /** A field as a user would type it: surrounding blanks and capitals go away, order stays. */
  lemma NormalizeExample()
    ensures Normalize(Some("A, b ,C")) == ["a", "b", "c"]
  {
    ExampleParts();
    ExampleRest();
    ExampleFirst();
    ExampleSecond();
    ExampleThird();
  }

  lemma ExampleParts()
    ensures Normalize(Some("A, b ,C")) == Normalize(Some("A")) + Normalize(Some(" b ,C"))
  {
    var f := "A, b ,C";
    NormalizeAt(f, 1);
    assert f[..1] == "A" && f[2..] == " b ,C";
  }

  lemma ExampleRest()
    ensures Normalize(Some(" b ,C")) == Normalize(Some(" b ")) + Normalize(Some("C"))
  {
    var f := " b ,C";
    NormalizeAt(f, 3);
    assert f[..3] == " b " && f[4..] == "C";
  }

  lemma ExampleFirst()
    ensures Normalize(Some("A")) == ["a"]
  {
    CleanFirst();
    NormalizeField("A");
  }

  lemma CleanFirst()
    ensures CleanField("A") == "a"
  {
    assert TrimStart("A") == "A" && TrimEnd("A") == "A";
    LowerAt("A");
  }

  lemma ExampleSecond()
    ensures Normalize(Some(" b ")) == ["b"]
  {
    CleanSecond();
    NormalizeField(" b ");
  }

  lemma CleanSecond()
    ensures CleanField(" b ") == "b"
  {
    assert " b "[1..] == "b ";
    assert TrimStart("b ") == "b ";
    assert "b "[..1] == "b";
    assert TrimEnd("b") == "b";
    LowerAt("b");
  }

  lemma ExampleThird()
    ensures Normalize(Some("C")) == ["c"]
  {
    CleanThird();
    NormalizeField("C");
  }

  lemma CleanThird()
    ensures CleanField("C") == "c"
  {
    assert TrimStart("C") == "C" && TrimEnd("C") == "C";
    LowerAt("C");
  }
}
