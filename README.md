# imgc storage gateway: a Dafny model

imgc stores uploaded images in an S3 bucket and finds them again by keyword.
The server (`server/src/index.js`) has two handlers, and both run a
configuration guard first:

- `POST /api/upload` derives an object key from the upload time and the
  file name, and normalises a comma-separated keyword field. When at least
  one keyword remains, the put sends `Tagging` as `keywords=` followed by
  the keywords joined by `|` and put through `encodeURIComponent`; with no
  keywords it sends no `Tagging`. What S3 then stores is described under
  "Read-back" below.
- `GET /api/search` lists `uploads/` and skips objects that have no key or
  a size of 0. It fetches the tag set of each other object and decodes its
  keywords. An empty query keeps every such object; otherwise it keeps the
  objects with a keyword that contains the lower-cased query.

The model keeps the string and list handling of these handlers. The
object store and the clock become inputs.

| file | module | what it holds |
|---|---|---|
| `seqs.dfy` | `Seqs` | small facts about sequence concatenation used by the proofs |
| `results.dfy` | `Results` | `Option` and `Result` |
| `text.dfy` | `Text` | JavaScript `trim`, `\s`, `toLowerCase`, `split`, `join`, `includes` |
| `percent.dfy` | `Percent` | `encodeURIComponent`, `encodeURI` and `decodeURIComponent` over UTF-8, as ECMA-262 defines them (sections 19.2.6.5 Encode and 19.2.6.6 Decode of ECMAScript 2023) |
| `keywords.dfy` | `Keywords` | keyword normalisation, the `Tagging` value, reading the tag back |
| `naming.dfy` | `Naming` | object key and public URL |
| `config.dfy` | `Config` | how `s3.js` resolves the settings, and `requireConfig` as a method |
| `search.dfy` | `Search` | the search loop as a method, proved against the function `Run`, and lemmas about `Run` |
| `gateway.dfy` | `Gateway` | both handlers as methods that return the response and the store calls they make, in order |

How the outside world is represented:
- **The store.** The listing reply is a parameter of type
  `Result<ListReply, string>`; an `Err` carries the message of a failed
  call. The tag-set lookup is a parameter of type
  `string -> Result<TagReply, string>`. Whether the put failed is a
  parameter too (`putError`). Each handler also returns the sequence of
  `StoreCall`s it issued, so "no store call" and "stops at the first
  failure" can be stated directly.
- **The clock.** The upload time enters as its `toISOString()` text.
- **Read-back.** S3 reads the `Tagging` parameter of a put as a URL query
  string, so the tag value it keeps has its escapes decoded: the `|`-join
  of the keywords itself. `Keywords.S3Keeps` reads the tag set S3 keeps
  from a put's `Tagging`, and `Keywords.S3KeepsTagging` shows that for the
  upload handler's puts it is `Keywords.StoredTags`. The search then
  decodes that value a second time (`index.js:89`). This second decoding
  changes nothing when no keyword holds `%`
  (`Keywords.UploadedKeywordsReadBack`).
- **Tag characters.** S3 documents a restricted character set for tag
  values, and neither `%` nor `|` is in it. Whether S3 enforces it is not
  modelled. The put's outcome is the `putError` parameter, so both cases
  are covered:
  - if S3 refuses such a put, `Gateway.HandleUpload` answers with the
    put's error and status 500;
  - if S3 accepts a value holding `%`, a keyword such as `5%` no longer
    decodes once stored (`Keywords.PercentBreaksReadBack`), and from then
    on every search that examines that object answers 500, whatever the
    query (`Gateway.PercentKeywordBreaksSearch`);
  - if S3 accepts a value holding `|`, the keyword reads back as its
    `|`-separated fields (`Keywords.PipeSplitsKeyword`).
- **A store that keeps escapes.** `Keywords.EncodedTags` describes a store
  that would return the value exactly as sent, escapes and all;
  `Keywords.EncodedKeywordsReadBack` and `Keywords.TagRoundTrip` are about
  that store.

Behaviour of the code worth noting:
- `s3.js:3` defaults the region to `us-east-1`, and the guard tests that
  resolved value (`index.js:20`). So `requireConfig` can report the
  bucket and the two keys but never `AWS_REGION`
  (`Config.RegionNeverMissing`).
- An upload without an image is answered with status 400
  (`index.js:47`); the model's `Gateway.UploadStatus` gives the same
  status.
- Search skips objects with no key as well as zero-size ones
  (`index.js:86`). An object whose size is absent is not skipped.

## Model

| member | source | states |
|---|---|---|
| Text.Trim | server/src/index.js:55 | the trimmed field neither starts nor ends with a JavaScript whitespace character |
| Text.TrimInfix | server/src/index.js:55 | what `trim` keeps is a contiguous part of the field, starting after the leading whitespace |
| Text.TrimParts | server/src/index.js:55 | the field is the leading whitespace, then the trimmed result, then the trailing whitespace; with `Trim`, this pins the result down: the longest middle part that neither starts nor ends with whitespace |
| Text.TrimEmpty | server/src/index.js:55 | `trim` gives the empty string exactly when every character is whitespace |
| Text.LowerFacts | server/src/index.js:55 | the lowered text has no upper-case letter; whitespace stays whitespace at each position; every other change produces a letter a-z; already-lower-case text is unchanged |
| Text.LowerAt | server/src/index.js:55 | lower-casing works character by character: at each position the character becomes its own lower-case form |
| Text.SplitCount | server/src/index.js:54 | `split(d)` gives one more field than there are separators |
| Text.SplitFields | server/src/index.js:54 | no field produced by `split` contains the separator |
| Text.SplitAround | server/src/index.js:54 | splitting at a separator gives the fields before it, in order, followed by those after it |
| Text.SplitJoin | server/src/index.js:89 | splitting a non-empty join of separator-free fields gives the fields back |
| Text.JoinSplit | server/src/index.js:89 | joining the fields of a split gives the original string |
| Text.Includes | server/src/index.js:90 | `k.includes(q)` holds exactly when `q` occurs in `k` at some index |
| Percent.EncodeAlphabet | server/src/index.js:58 | encoding leaves only characters of the flavour's unescaped set, `%` and upper-case hex digits |
| Percent.DecodeEncode | server/src/index.js:89 | `decodeURIComponent` undoes `encodeURIComponent` and `encodeURI` on every string |
| Percent.DecodeWithoutPercent | server/src/index.js:89 | a string without `%` decodes to itself |
| Keywords.CleanFieldFacts | server/src/index.js:55 | a cleaned field is trimmed and lower case; it is empty exactly when the field is all whitespace |
| Keywords.Normalize | server/src/index.js:53-56 | every keyword is non-empty, trimmed, lower case and free of commas; there are no more keywords than comma-separated fields |
| Keywords.NormalizeAround | server/src/index.js:53-56 | the keywords of the text before a comma come first, in order, then those after it |
| Keywords.NormalizeField | server/src/index.js:53-56 | a single field yields its trimmed, lower-cased form, or nothing when that is empty |
| Keywords.NormalizeEmpty | server/src/index.js:53-56 | the list is empty exactly when the field is absent, empty, or only whitespace and commas |
| Keywords.NormalizeExample | server/src/index.js:53-56 | `"A, b ,C"` normalises to `["a", "b", "c"]` |
| Keywords.Tagging | server/src/index.js:58 | a `Tagging` value exists exactly when there is a keyword; it starts with `keywords=`, and what follows decodes back to the keywords joined with pipe characters |
| Keywords.FindTag | server/src/index.js:88 | the result is the first tag with the key, or none when no tag has that key |
| Keywords.NoTagNoKeywords | server/src/index.js:88-89 | a tag set without a `keywords` tag, or an absent tag set, reads as no keywords |
| Keywords.EmptyTagOneEmptyKeyword | server/src/index.js:88-89 | in any tag set whose first `keywords` tag has no value or an empty one, the keywords read as one empty keyword, not as none |
| Keywords.TagRoundTrip | server/src/index.js:88-89 | a tag holding the encoded join of a non-empty list with no pipe character in any keyword reads back as that list |
| Keywords.S3KeepsTagging | server/src/index.js:58 | the tag set S3 keeps from the `Tagging` the upload sends is no tag for no keywords, else one `keywords` tag holding the plain pipe-join |
| Keywords.UploadedKeywordsReadBack | server/src/index.js:53-58 | for a field without a pipe character or `%`, the tag set S3 hands back, with its value already decoded, reads back as exactly the keywords the upload reported |
| Keywords.EncodedKeywordsReadBack | server/src/index.js:53-58 | against a store that returned the tag value as sent, any field without a pipe character would read back as the keywords reported |
| Keywords.PercentBreaksReadBack | server/src/index.js:53-58 | normalisation keeps the field `5%` as the keyword `5%`; if S3 accepts that tag value, the tag it returns fails to decode |
| Keywords.DecodedTagReadBack | server/src/index.js:88-89 | the tag set S3 hands back for a non-empty list, its value the plain join, reads back as that list when no keyword holds `%` or a pipe character |
| Keywords.PipeSplitsKeyword | server/src/index.js:53-58 | a clean keyword without `%` is kept whole on upload; if S3 accepts a pipe character in a tag value, the keyword reads back as its pipe-separated fields, one more than the pipe characters it holds |
| Keywords.PipeExample | server/src/index.js:53-58 | the field made of `a`, a pipe character and `b` is uploaded as one keyword; if S3 accepts that tag value, it reads back as the two keywords `a` and `b` |
| Naming.DashStamp | server/src/index.js:50 | same length as the timestamp, no `:` or `.`, and each character is the original one or `-` in its place |
| Naming.SanitizeNoSpace | server/src/index.js:49 | no whitespace is left in the sanitised name |
| Naming.SanitizeClean | server/src/index.js:49 | a name without whitespace is unchanged |
| Naming.SanitizeRun | server/src/index.js:49 | a whole run of whitespace becomes a single `_` |
| Naming.SanitizeAround | server/src/index.js:49 | sanitising splits at every non-whitespace character, so it works run by run |
| Naming.KeyParts | server/src/index.js:49-51 | the key is `uploads/`, then the dashed timestamp, then `-`, then the sanitised name; the lengths locate each part |
| Naming.KeyUnderPrefix | server/src/index.js:51 | every key starts with `uploads/` |
| Naming.UrlDecodesToKey | server/src/index.js:69 | the URL is the bucket-and-region base followed by a tail that decodes back to the key |
| Naming.UploadUrlPath | server/src/index.js:69 | `encodeURI` keeps `uploads/` intact in the URL path |
| Config.Resolve | server/src/s3.js:3-4 | the region is never empty; it defaults to `us-east-1`; the bucket is empty exactly when its variable is unset or empty |
| Config.RequireConfig | server/src/index.js:17-22 | the `missing` array built by the four checks equals the reference list `MissingSettings` |
| Config.MissingExact | server/src/index.js:17-22 | a name is listed exactly when its setting is absent; the list keeps the order bucket, region, access key, secret; it is empty exactly when all four are present |
| Config.RegionNeverMissing | server/src/index.js:20 | a region resolved by `s3.js` is never reported missing |
| Search.SomeIncludes | server/src/index.js:90 | `keywords.some(k => k.includes(q))` holds exactly when some keyword contains `q` |
| Search.SearchObjects | server/src/index.js:85-97 | the loop returns the value of `Run`; after a full pass it has requested the tags of exactly the examined objects (those with a non-empty key and a size other than 0), in order; after a failure, of exactly the examined objects up to and including the first failing one |
| Search.StopsAt | server/src/index.js:85-102 | when an object fails after a clean search of those before it, the whole search fails with its error, and that object is the first failure |
| Search.RunFailure | server/src/index.js:83-102 | the search fails exactly when examining some object fails, and it fails with the first such error |
| Search.PicksExact | server/src/index.js:85-97 | the returned objects' indices rise strictly; an index is among them exactly when that object is kept |
| Search.RunSelects | server/src/index.js:85-97 | a successful search returns one item per picked object, in listing order, so the results are a subsequence of the listing |
| Search.KeptMeaning | server/src/index.js:86-95 | an object is kept exactly when it has a non-empty key and a size other than 0, its tags read cleanly, and the query is empty or occurs in a keyword; the item carries that key, its public URL and those keywords |
| Search.EmptyQueryReturnsAll | server/src/index.js:90 | with an empty query the result keys are exactly the keys of all examined objects (a non-empty key, a size other than 0), in order |
| Search.RunItems | server/src/index.js:86-95 | no result has an empty key; every result's URL is its key's public URL, and its keywords match the query |
| Search.MatchExample | server/src/index.js:90 | keywords `beach` and `sunset` match the query `set` but not `zz` |
| Gateway.HandleUpload | server/src/index.js:44-75 | missing settings produce a not-configured answer listing them; no file produces a 400; neither of those makes a store call; otherwise exactly one put, then the upload answer or the put's error; the status is 400 exactly for no file and 200 exactly for a successful put, else 500, and the `error` text matches each case |
| Gateway.HandleSearch | server/src/index.js:78-103 | missing settings produce a not-configured answer with no store call; otherwise one listing of `uploads/` comes first; a listing error gives a failure and nothing else; otherwise the answer is `Run`'s items or its error, never partial items; on an error the tag requests stop at the first failing object; the status is 200 exactly when the guard passes, the listing succeeds and `Run` succeeds, else 500 with the matching `error` text |
| Gateway.UploadedObjectFound | server/src/index.js:86-95 | an object put by the upload handler, with a field holding no pipe character or `%`, and examined with the tag set S3 keeps from that put, is returned exactly when the query is empty or a keyword contains it, with the put's key, its URL and the keywords the upload reported |
| Gateway.PercentKeywordBreaksSearch | server/src/index.js:83-102 | if S3 accepted the tag value of an upload with the keyword `5%`, every search that examines that object fails, whatever the query |

## Left out

- Express, multer, cors and morgan wiring, the JSON body parser, and `app.listen` (`index.js:9-14`, `105-108`) are HTTP plumbing.
- The 10 MiB file limit lives in multer's configuration, and its rejection path is not part of this model.
- The health and debug endpoints (`index.js:29-41`) only echo the configuration.
- The S3 SDK calls become parameters and a returned call trace, as described above. Store pagination is not handled in the source, and the model does not add it.
- `new Date().toISOString()` is a parameter.
- `console.error` and `console.warn` output is left out.
- `client/src/App.jsx` is not part of this model.
- Text.ToLower: only the ASCII letters A-Z are lowered. JavaScript's full Unicode case mapping is left out, including mappings that change the string's length.
- Percent.Encode: strings are sequences of Unicode scalar values. JavaScript's UTF-16 strings can also hold lone surrogates, which make `encodeURIComponent` throw; they cannot be represented here.
- Gateway.HandleUpload: the `keywords` form field is modelled as an optional string. An array- or object-valued field is left out.
- Gateway.HandleSearch: the `q` parameter is modelled as an optional string. An array-valued query such as `?q=a&q=b`, which `.toString()` turns into `a,b` (`index.js:80`), is left out.
- Gateway.HandleUpload: an exception thrown anywhere other than the put counts as a failure of the put. A malformed file name is one example.
- Keywords.S3Keeps: S3's parsing of `Tagging` is modelled only for the one-pair query string `keywords=<value>` the upload handler sends. Other query strings, and S3's limits on tag length and characters, are not modelled. A put S3 refuses for those limits is the `putError` case of `Gateway.HandleUpload`, a 500.
- Two uploads with the same timestamp and name get the same key, and the second overwrites the first. The model derives keys but does not model the overwrite.
