/**
 * The body of the search handler: one pass over the listing, a tag-set
 * request per examined object, and the keyword filter.
 */
module Search {
  import opened Results
  import opened Text
  import Keywords
  import Naming

  /** One entry of a listing; the store may leave out the key or the size. */
  datatype ListedObject = ListedObject(key: Option<string>, size: Option<int>)

  /** The reply to the listing request; an absent `Contents` reads as no objects. */
  datatype ListReply = ListReply(contents: Option<seq<ListedObject>>)

  /** One search result. */
  datatype Item = Item(key: string, url: string, keywords: seq<string>)

  /** The store's answer to a tag-set request for a key: a reply, or the message of the failure. */
  type TagLookup = string -> Result<Keywords.TagReply, string>

  /** The bucket and region the result URLs point into. */
  datatype Site = Site(bucket: string, region: string)

  /** The loop looks at an object only when it has a non-empty key and its size is not 0. */
  predicate Examined(o: ListedObject) {
    o.key.Some? && o.key.value != [] && o.size != Some(0)
  }

  /** The `q` query parameter, absent read as empty, lower-cased. */
  function Query(q: Option<string>): string {
    ToLower(q.GetOr([]))
  }

  /** `keywords.some(k => k.includes(q))`. */
  function SomeIncludes(kws: seq<string>, q: string): (r: bool)
    ensures r <==> exists j | 0 <= j < |kws| :: Includes(kws[j], q)
  {
    if kws == [] then false
    else
      assert forall j | 1 <= j < |kws| :: kws[1..][j - 1] == kws[j];
      Includes(kws[0], q) || SomeIncludes(kws[1..], q)
  }

  /** `!q || keywords.some(k => k.includes(q))`. */
  predicate Matches(q: string, kws: seq<string>) {
    q == [] || SomeIncludes(kws, q)
  }

  function ItemFor(site: Site, key: string, kws: seq<string>): Item {
    Item(key, Naming.PublicUrl(site.bucket, site.region, key), kws)
  }

  /** What the loop makes of one object: skip it (Ok(None)), keep it (Ok(Some)), or abort the search (Err). */
  function Examine(site: Site, q: string, o: ListedObject, tags: TagLookup): Result<Option<Item>, string> {
    if !Examined(o) then Ok(None)
    else
      match tags(o.key.value)
      case Err(e) => Err(e)
      case Ok(reply) =>
        match Keywords.StoredKeywords(reply)
        case Err(e) => Err(e)
        case Ok(kws) => if Matches(q, kws) then Ok(Some(ItemFor(site, o.key.value, kws))) else Ok(None)
  }

  /** The search over a listing, object by object in listing order; the first failure aborts it. */
  function Run(site: Site, q: string, objs: seq<ListedObject>, tags: TagLookup): Result<seq<Item>, string>
    decreases |objs|
  {
    if objs == [] then Ok([])
    else
      match Run(site, q, objs[..|objs| - 1], tags)
      case Err(e) => Err(e)
      case Ok(items) =>
        match Examine(site, q, objs[|objs| - 1], tags)
        case Err(e) => Err(e)
        case Ok(None) => Ok(items)
        case Ok(Some(it)) => Ok(items + [it])
  }

  /** The keys whose tag sets a complete pass requests, in listing order. */
  function ExaminedKeys(objs: seq<ListedObject>): seq<string>
    decreases |objs|
  {
    if objs == [] then []
    else
      var last := objs[|objs| - 1];
      ExaminedKeys(objs[..|objs| - 1]) + if Examined(last) then [last.key.value] else []
  }

  /**
   * The `for … of` loop of the search handler. Besides the result it gives the
   * keys whose tag sets it requested; a failure ends the loop at once.
   */
  method SearchObjects(site: Site, q: string, objs: seq<ListedObject>, tags: TagLookup)
    returns (r: Result<seq<Item>, string>, fetched: seq<string>)
    ensures r == Run(site, q, objs, tags)
    ensures r.Ok? ==> fetched == ExaminedKeys(objs)
    ensures r.Err? ==> exists i :: FirstFailure(site, q, objs, tags, i, r.error) && fetched == ExaminedKeys(objs[..i + 1])
    ensures fetched <= ExaminedKeys(objs)
  {
    var results: seq<Item> := [];
    fetched := [];
    var i := 0;
    while i < |objs|
      invariant 0 <= i <= |objs|
      invariant Run(site, q, objs[..i], tags) == Ok(results)
      invariant fetched == ExaminedKeys(objs[..i])
    {
      var obj := objs[i];
      assert objs[..i + 1][..i] == objs[..i] && objs[..i + 1][i] == obj;
      if obj.key.None? || obj.key.value == [] || obj.size == Some(0) {
        i := i + 1;
        continue;
      }
      var key := obj.key.value;
      fetched := fetched + [key];
      var reply := tags(key);
      if reply.Err? {
        r := Err(reply.error);
        StopsAt(site, q, objs, tags, i, r.error, fetched);
        return;
      }
      var kws := Keywords.StoredKeywords(reply.value);
      if kws.Err? {
        r := Err(kws.error);
        StopsAt(site, q, objs, tags, i, r.error, fetched);
        return;
      }
      if q == [] || SomeIncludes(kws.value, q) {
        results := results + [ItemFor(site, key, kws.value)];
      }
      i := i + 1;
    }
    assert objs[..i] == objs;
    r := Ok(results);
  }

  /** Once the search of a prefix has failed, the search of the whole listing fails the same way. */
  lemma {:induction false} RunKeepsFailure(site: Site, q: string, objs: seq<ListedObject>, tags: TagLookup, n: nat)
    requires n <= |objs| && Run(site, q, objs[..n], tags).Err?
    ensures Run(site, q, objs, tags) == Run(site, q, objs[..n], tags)
    decreases |objs|
  {
    if n == |objs| {
      assert objs[..n] == objs;
    } else {
      var init := objs[..|objs| - 1];
      assert init[..n] == objs[..n];
      RunKeepsFailure(site, q, init, tags, n);
    }
  }

  /**
   * When the object at `i` fails after a clean search of those before it, the
   * whole search fails with its error, and that is the first failure.
   */
  lemma StopsAt(site: Site, q: string, objs: seq<ListedObject>, tags: TagLookup, i: nat, e: string,
                fetched: seq<string>)
    requires i < |objs| && Run(site, q, objs[..i], tags).Ok? && Examine(site, q, objs[i], tags) == Err(e)
    requires fetched == ExaminedKeys(objs[..i + 1])
    ensures Run(site, q, objs, tags) == Err(e)
    ensures fetched <= ExaminedKeys(objs)
    ensures exists j :: FirstFailure(site, q, objs, tags, j, e) && fetched == ExaminedKeys(objs[..j + 1])
  {
    assert objs[..i + 1][..i] == objs[..i] && objs[..i + 1][i] == objs[i];
    RunKeepsFailure(site, q, objs, tags, i + 1);
    ExaminedKeysGrow(objs, i + 1);
    RunFailure(site, q, objs[..i], tags);
    assert forall j | 0 <= j < i :: objs[..i][j] == objs[j];
    assert FirstFailure(site, q, objs, tags, i, e);
  }

  lemma {:induction false} ExaminedKeysGrow(objs: seq<ListedObject>, n: nat)
    requires n <= |objs|
    ensures ExaminedKeys(objs[..n]) <= ExaminedKeys(objs)
    decreases |objs|
  {
    if n == |objs| {
      assert objs[..n] == objs;
    } else {
      var init := objs[..|objs| - 1];
      assert init[..n] == objs[..n];
      ExaminedKeysGrow(init, n);
    }
  }

  // ---- What a search returns ----

  /** The object is one the search returns. */
  predicate Kept(site: Site, q: string, o: ListedObject, tags: TagLookup) {
    Examine(site, q, o, tags).Ok? && Examine(site, q, o, tags).value.Some?
  }

  /** The failure of `Run` is the one of the object at index `i`, and every object before it was examined cleanly. */
  predicate FirstFailure(site: Site, q: string, objs: seq<ListedObject>, tags: TagLookup, i: int, e: string) {
    && 0 <= i < |objs|
    && Examine(site, q, objs[i], tags) == Err(e)
    && forall j | 0 <= j < i :: Examine(site, q, objs[j], tags).Ok?
  }

  /**
   * A search fails exactly when examining some object fails, and then with the
   * first such failure; a failed search carries no items at all.
   */
  lemma {:induction false} RunFailure(site: Site, q: string, objs: seq<ListedObject>, tags: TagLookup)
    ensures Run(site, q, objs, tags).Ok? <==> forall i | 0 <= i < |objs| :: Examine(site, q, objs[i], tags).Ok?
    ensures Run(site, q, objs, tags).Err? ==>
      exists i :: FirstFailure(site, q, objs, tags, i, Run(site, q, objs, tags).error)
    decreases |objs|
  {
    if objs != [] {
      var n := |objs| - 1;
      var init := objs[..n];
      RunFailure(site, q, init, tags);
      assert forall i | 0 <= i < n :: objs[i] == init[i];
      var r := Run(site, q, objs, tags);
      if Run(site, q, init, tags).Err? {
        var i :| FirstFailure(site, q, init, tags, i, r.error);
        assert FirstFailure(site, q, objs, tags, i, r.error);
      } else if r.Err? {
        assert FirstFailure(site, q, objs, tags, n, r.error);
      }
    }
  }

  /** The positions whose mark is set, in increasing order. */
  function Indices(m: seq<bool>): seq<nat>
    decreases |m|
  {
    if m == [] then []
    else
      var n := |m| - 1;
      Indices(m[..n]) + if m[n] then [n] else []
  }

  lemma {:induction false} IndicesExact(m: seq<bool>)
    ensures var p := Indices(m);
      && (forall j | 0 <= j < |p| :: p[j] < |m|)
      && (forall j, k | 0 <= j < k < |p| :: p[j] < p[k])
      && (forall i | 0 <= i < |m| :: i in p <==> m[i])
    decreases |m|
  {
    if m != [] {
      var n := |m| - 1;
      IndicesExact(m[..n]);
      AppendAbove(Indices(m[..n]), if m[n] then [n] else [], n);
    }
  }

  /** Appending indices no smaller than `n` to rising indices below `n`. */
  lemma AppendAbove(p: seq<nat>, t: seq<nat>, n: nat)
    requires forall j | 0 <= j < |p| :: p[j] < n
    requires forall j, k | 0 <= j < k < |p| :: p[j] < p[k]
    requires t == [] || t == [n]
    ensures forall j | 0 <= j < |p + t| :: (p + t)[j] <= n
    ensures forall j, k | 0 <= j < k < |p + t| :: (p + t)[j] < (p + t)[k]
    ensures forall i | 0 <= i < n :: i in p + t <==> i in p
    ensures n in p + t <==> t == [n]
  {
  }

  /** Whether each object is kept. */
  function Marks(site: Site, q: string, objs: seq<ListedObject>, tags: TagLookup): seq<bool> {
    seq(|objs|, i requires 0 <= i < |objs| => Kept(site, q, objs[i], tags))
  }

  /** The indices of the objects a search returns, in listing order. */
  function Picks(site: Site, q: string, objs: seq<ListedObject>, tags: TagLookup): seq<nat> {
    Indices(Marks(site, q, objs, tags))
  }

  /** The picked indices rise strictly and are exactly those of the kept objects. */
  lemma PicksExact(site: Site, q: string, objs: seq<ListedObject>, tags: TagLookup)
    ensures var p := Picks(site, q, objs, tags);
      && (forall j | 0 <= j < |p| :: p[j] < |objs|)
      && (forall j, k | 0 <= j < k < |p| :: p[j] < p[k])
      && (forall i | 0 <= i < |objs| :: i in p <==> Kept(site, q, objs[i], tags))
  {
    IndicesExact(Marks(site, q, objs, tags));
  }

  /** Picking over one more object extends the picks by its index when it is kept. */
  lemma PicksStep(site: Site, q: string, objs: seq<ListedObject>, tags: TagLookup)
    requires objs != []
    ensures var n := |objs| - 1;
      Picks(site, q, objs, tags) ==
        Picks(site, q, objs[..n], tags) + if Kept(site, q, objs[n], tags) then [n] else []
  {
    var n := |objs| - 1;
    assert Marks(site, q, objs, tags)[..n] == Marks(site, q, objs[..n], tags);
  }

  /** A successful search returns, in order, the items of exactly the picked objects. */
  lemma {:induction false} RunSelects(site: Site, q: string, objs: seq<ListedObject>, tags: TagLookup, items: seq<Item>)
    requires Run(site, q, objs, tags) == Ok(items)
    ensures |items| == |Picks(site, q, objs, tags)|
    ensures forall j | 0 <= j < |items| ::
      && Picks(site, q, objs, tags)[j] < |objs|
      && Examine(site, q, objs[Picks(site, q, objs, tags)[j]], tags) == Ok(Some(items[j]))
    decreases |objs|
  {
    if objs != [] {
      var n := |objs| - 1;
      var init := objs[..n];
      var prior := Run(site, q, init, tags).value;
      RunSelects(site, q, init, tags, prior);
      PicksExact(site, q, init, tags);
      PicksStep(site, q, objs, tags);
    }
  }

  /**
   * Which objects are kept: those with a key and a non-zero size whose tag
   * set reads cleanly and whose keywords match the query, that is, the
   * query is empty or occurs in some keyword. The item is the object's key,
   * its public URL and those keywords.
   */
  lemma KeptMeaning(site: Site, q: string, o: ListedObject, tags: TagLookup)
    ensures Kept(site, q, o, tags) <==>
      && Examined(o)
      && tags(o.key.value).Ok?
      && Keywords.StoredKeywords(tags(o.key.value).value).Ok?
      && var kws := Keywords.StoredKeywords(tags(o.key.value).value).value;
         q == [] || exists j, i | 0 <= j < |kws| :: OccursAt(kws[j], q, i)
    ensures Kept(site, q, o, tags) ==>
      var it := Examine(site, q, o, tags).value.value;
      && it.key == o.key.value && it.key != []
      && it.url == Naming.PublicUrl(site.bucket, site.region, it.key)
      && Ok(it.keywords) == Keywords.StoredKeywords(tags(o.key.value).value)
  {
  }

  /** The keys of the items, in order. */
  function ItemKeys(items: seq<Item>): seq<string> {
    if items == [] then [] else ItemKeys(items[..|items| - 1]) + [items[|items| - 1].key]
  }

  /** With an empty query a successful search returns every examined object, one item each, in listing order. */
  lemma {:induction false} EmptyQueryReturnsAll(site: Site, objs: seq<ListedObject>, tags: TagLookup, items: seq<Item>)
    requires Run(site, [], objs, tags) == Ok(items)
    ensures ItemKeys(items) == ExaminedKeys(objs)
    decreases |objs|
  {
    if objs != [] {
      var n := |objs| - 1;
      var init := objs[..n];
      var prior := Run(site, [], init, tags).value;
      EmptyQueryReturnsAll(site, init, tags, prior);
      if Examined(objs[n]) {
        assert items == prior + [items[|items| - 1]];
        assert items[..|items| - 1] == prior;
      }
    }
  }

  /** Every item of a successful search has a key, the public URL of that key, and keywords that match the query. */
  lemma {:induction false} RunItems(site: Site, q: string, objs: seq<ListedObject>, tags: TagLookup, items: seq<Item>)
    requires Run(site, q, objs, tags) == Ok(items)
    ensures forall j | 0 <= j < |items| ::
      && items[j].key != []
      && items[j].url == Naming.PublicUrl(site.bucket, site.region, items[j].key)
      && Matches(q, items[j].keywords)
    decreases |objs|
  {
    if objs != [] {
      var n := |objs| - 1;
      RunItems(site, q, objs[..n], tags, Run(site, q, objs[..n], tags).value);
    }
  }

  /** Keywords `beach` and `sunset`: the query `set` matches them, the query `zz` does not. */
  lemma MatchExample()
    ensures Matches(Query(Some("set")), ["beach", "sunset"])
    ensures !Matches(Query(Some("zz")), ["beach", "sunset"])
  {
    LowerAt("set");
    LowerAt("zz");
    assert Query(Some("set")) == "set";
    assert Query(Some("zz")) == "zz";
    assert OccursAt("sunset", "set", 3);
    var kws := ["beach", "sunset"];
    forall j, i | 0 <= j < |kws| ensures !OccursAt(kws[j], "zz", i) {
      LacksFirst(kws[j], "zz", i);
    }
  }

  /** `q` cannot occur where `k` lacks its first character. */
  lemma LacksFirst(k: string, q: string, i: int)
    requires q != [] && q[0] !in k
    ensures !OccursAt(k, q, i)
  {
  }
}
