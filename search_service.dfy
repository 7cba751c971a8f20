/**
 * The result mapper (`SearchService`): running a search, mapping the
 * engine's answer back to documents and excerpts, and rebuilding a stored
 * document for `getDocument`.  The Meilisearch client is a parameter: the
 * answer of a search, or of a document fetch, for each request.
 */
module SearchService {
  import opened Php
  import opened Host
  import IndexMapping
  import SearchMapping

  // ---------------------------------------------------------------------------
  // The TArrayTools helpers
  // ---------------------------------------------------------------------------

  /** `get($k, $arr)`: a string or int stored under `k`, as a string; '' otherwise. */
  function TextField(a: PArray, k: Bytes): Bytes {
    match Get(a, KStr(k))
    case Some(Str(s)) => s
    case Some(Int(i)) => IntToString(i)
    case _ => ""
  }

  /** `getInt($k, $arr)`: the int cast of a non-null value stored under `k`; 0 otherwise. */
  function IntField(a: PArray, k: Bytes): int {
    match Get(a, KStr(k))
    case Some(v) => if v.Null? then 0 else ToInt(v)
    case None => 0
  }

  // ---------------------------------------------------------------------------
  // Response metadata (updateSearchResult)
  // ---------------------------------------------------------------------------

  /** `(int)($result['estimatedTotalHits'] ?? $result['totalHits'] ?? 0)`. */
  function Total(raw: PArray): int {
    ToInt(Coalesce(raw, KStr(EstimatedTotalHitsKey), Coalesce(raw, KStr(TotalHitsKey), Int(0))))
  }

  /** `(int)($result['processingTimeMs'] ?? 0)`. */
  function ProcessingTime(raw: PArray): int {
    ToInt(Coalesce(raw, KStr(ProcessingTimeKey), Int(0)))
  }

  /**
   * The total is the estimate when the engine sent one, else the exact count,
   * else 0; a stored null counts as absent.
   */
  lemma TotalCases(raw: PArray)
    ensures var e := Get(raw, KStr(EstimatedTotalHitsKey));
            var t := Get(raw, KStr(TotalHitsKey));
      && (e.Some? && !e.value.Null? ==> Total(raw) == ToInt(e.value))
      && ((e.None? || e.value.Null?) && t.Some? && !t.value.Null? ==> Total(raw) == ToInt(t.value))
      && ((e.None? || e.value.Null?) && (t.None? || t.value.Null?) ==> Total(raw) == 0)
  {
  }

  // ---------------------------------------------------------------------------
  // Excerpts (parseSearchEntryExcerpts)
  // ---------------------------------------------------------------------------

  datatype Excerpt = Excerpt(source: Bytes, excerpt: Bytes)

  const ExcerptFields: seq<Bytes> := [ContentKey, TitleKey]

  /** The excerpt of a top-level field: a non-empty string stored under its name. */
  function FieldExcerpt(formatted: PArray, field: Bytes): seq<Excerpt> {
    match Get(formatted, KStr(field))
    case Some(Str(s)) => if s != "" then [Excerpt(field, s)] else []
    case _ => []
  }

  /** The first loop: one excerpt per field that carries text, in field order. */
  function FieldExcerpts(formatted: PArray, fields: seq<Bytes>): seq<Excerpt> {
    if fields == [] then []
    else FieldExcerpts(formatted, fields[..|fields| - 1]) + FieldExcerpt(formatted, fields[|fields| - 1])
  }

  /** A nested `parts` entry: a string name with non-empty text becomes `parts.<name>`. */
  function NestedExcerpt(entry: (Key, Value)): Option<Excerpt> {
    match entry
    case (KStr(name), Str(s)) => if s != "" then Some(Excerpt(PartsPrefix + name, s)) else None
    case _ => None
  }

  /** `$formatted['parts'] ?? []`, when it is an array. */
  function NestedParts(formatted: PArray): PArray {
    match Coalesce(formatted, KStr(PartsKey), Arr([]))
    case Arr(es) => es
    case _ => []
  }

  /** The second loop: the nested parts, in order. */
  function NestedExcerpts(formatted: PArray): seq<Excerpt> {
    FilterMap(NestedExcerpt, NestedParts(formatted))
  }

  /** A flat `parts.<name>` key with non-empty text, unless its source was already seen. */
  function FlatExcerpt(entry: (Key, Value), seen: set<Bytes>): seq<Excerpt> {
    match entry
    case (KStr(field), Str(s)) =>
      if StartsWith(field, PartsPrefix) && s != "" && field !in seen then [Excerpt(field, s)] else []
    case _ => []
  }

  /** The third loop; it reads `$seen` but does not add to it. */
  function FlatExcerpts(entries: PArray, seen: set<Bytes>): seq<Excerpt> {
    if entries == [] then []
    else FlatExcerpts(entries[..|entries| - 1], seen) + FlatExcerpt(entries[|entries| - 1], seen)
  }

  /** The sources recorded in `$seen`. */
  function Sources(xs: seq<Excerpt>): set<Bytes> {
    if xs == [] then {} else Sources(xs[..|xs| - 1]) + {xs[|xs| - 1].source}
  }

  /** The excerpts of one hit: fields, then nested parts, then flat part keys. */
  function Excerpts(formatted: PArray): seq<Excerpt> {
    var head := FieldExcerpts(formatted, ExcerptFields) + NestedExcerpts(formatted);
    head + FlatExcerpts(formatted, Sources(head))
  }

  /** `parseSearchEntryExcerpts`. */
  method ParseSearchEntryExcerpts(formatted: PArray) returns (result: seq<Excerpt>)
    ensures result == Excerpts(formatted)
  {
    var fieldPart, seen := CollectFieldExcerpts(formatted);
    var head;
    head, seen := CollectNestedExcerpts(formatted, fieldPart);
    result := CollectFlatExcerpts(formatted, head, seen);
  }

  /** The first loop of `parseSearchEntryExcerpts`: `content` and `title`. */
  method CollectFieldExcerpts(formatted: PArray) returns (result: seq<Excerpt>, seen: set<Bytes>)
    ensures result == FieldExcerpts(formatted, ExcerptFields)
    ensures seen == Sources(result)
  {
    result := [];
    seen := {};
    var fields: seq<Bytes> := ExcerptFields;
    var i := 0;
    while i < |fields|
      invariant 0 <= i <= |fields|
      invariant result == FieldExcerpts(formatted, fields[..i])
      invariant seen == Sources(result)
    {
      assert fields[..i + 1][..i] == fields[..i];
      var field := fields[i];
      var v := Get(formatted, KStr(field));
      if v.Some? && v.value.Str? && v.value.s != "" {
        assert (result + [Excerpt(field, v.value.s)])[..|result|] == result;
        result := result + [Excerpt(field, v.value.s)];
        seen := seen + {field};
      }
      i := i + 1;
    }
    assert fields[..i] == fields;
  }

  /** The second loop: the entries of the nested `parts` array. */
  method CollectNestedExcerpts(formatted: PArray, acc: seq<Excerpt>) returns (result: seq<Excerpt>, seen: set<Bytes>)
    ensures result == acc + NestedExcerpts(formatted)
    ensures seen == Sources(result)
  {
    result := acc;
    seen := Sources(acc);
    var parts := Coalesce(formatted, KStr(PartsKey), Arr([]));
    if parts.Arr? {
      var es := parts.entries;
      var j := 0;
      while j < |es|
        invariant 0 <= j <= |es|
        invariant result == acc + FilterMap(NestedExcerpt, es[..j])
        invariant seen == Sources(result)
      {
        assert es[..j + 1] == es[..j] + [es[j]];
        FilterMapSnoc(NestedExcerpt, es[..j], es[j]);
        var (part, excerpt) := es[j];
        if part.KStr? && excerpt.Str? && excerpt.s != "" {
          var source := PartsPrefix + part.s;
          assert (result + [Excerpt(source, excerpt.s)])[..|result|] == result;
          result := result + [Excerpt(source, excerpt.s)];
          seen := seen + {source};
        }
        j := j + 1;
      }
      assert es[..j] == es;
    }
  }

  /** The third loop: flat `parts.*` fields not already seen. */
  method CollectFlatExcerpts(formatted: PArray, acc: seq<Excerpt>, seen: set<Bytes>) returns (result: seq<Excerpt>)
    ensures result == acc + FlatExcerpts(formatted, seen)
  {
    result := acc;
    var k := 0;
    while k < |formatted|
      invariant 0 <= k <= |formatted|
      invariant result == acc + FlatExcerpts(formatted[..k], seen)
    {
      assert formatted[..k + 1][..k] == formatted[..k];
      var (field, excerpt) := formatted[k];
      if field.KStr? && StartsWith(field.s, PartsPrefix) && excerpt.Str? && excerpt.s != "" && field.s !in seen {
        result := result + [Excerpt(field.s, excerpt.s)];
      }
      k := k + 1;
    }
    assert formatted[..k] == formatted;
  }

  lemma {:induction false} SourcesMembers(xs: seq<Excerpt>)
    ensures forall s :: s in Sources(xs) <==> exists i :: 0 <= i < |xs| && xs[i].source == s
  {
    if xs != [] {
      var init := xs[..|xs| - 1];
      SourcesMembers(init);
      forall s ensures s in Sources(xs) <==> exists i :: 0 <= i < |xs| && xs[i].source == s {
        if s in Sources(init) {
          var i :| 0 <= i < |init| && init[i].source == s;
          assert xs[i].source == s;
        }
        if exists i :: 0 <= i < |xs| && xs[i].source == s {
          var i :| 0 <= i < |xs| && xs[i].source == s;
          if i < |init| {
            assert init[i].source == s;
          }
        }
      }
    }
  }

  /** The sources of a list of excerpts are pairwise distinct. */
  predicate DistinctSources(xs: seq<Excerpt>) {
    forall i, j :: 0 <= i < j < |xs| ==> xs[i].source != xs[j].source
  }

  lemma FieldExcerptsShape(formatted: PArray)
    ensures var f := FieldExcerpts(formatted, ExcerptFields);
      && DistinctSources(f)
      && forall i :: 0 <= i < |f| ==> f[i].source in ExcerptFields && f[i].excerpt != ""
  {
    var fields := ExcerptFields;
    var first: seq<Bytes> := [ContentKey];
    assert fields[..1] == first && first[..0] == [];
    assert FieldExcerpts(formatted, first) == FieldExcerpt(formatted, ContentKey);
    assert FieldExcerpts(formatted, fields) == FieldExcerpt(formatted, ContentKey) + FieldExcerpt(formatted, TitleKey);
  }

  lemma {:induction false} NestedExcerptsShape(es: PArray)
    requires DistinctKeys(es)
    ensures var n := FilterMap(NestedExcerpt, es);
      && DistinctSources(n)
      && forall i :: 0 <= i < |n| ==> StartsWith(n[i].source, PartsPrefix) && n[i].excerpt != ""
  {
    if es != [] {
      var init := es[..|es| - 1];
      var last := es[|es| - 1];
      assert DistinctKeys(init) by {
        forall p, q | 0 <= p < q < |init| ensures init[p].0 != init[q].0 {
          assert init[p] == es[p] && init[q] == es[q];
        }
      }
      NestedExcerptsShape(init);
      assert es == init + [last];
      FilterMapSnoc(NestedExcerpt, init, last);
      if NestedExcerpt(last).Some? {
        forall p | 0 <= p < |init| ensures init[p].0 != last.0 {
          assert init[p] == es[p];
        }
        NestedExcerptFresh(init, last);
      }
    }
  }

  /** A nested part whose name no earlier part has yields a source no earlier part yields. */
  lemma NestedExcerptFresh(init: PArray, last: (Key, Value))
    requires forall p :: 0 <= p < |init| ==> init[p].0 != last.0
    requires NestedExcerpt(last).Some?
    ensures var m := FilterMap(NestedExcerpt, init);
      forall i :: 0 <= i < |m| ==> m[i].source != NestedExcerpt(last).value.source
    ensures StartsWith(NestedExcerpt(last).value.source, PartsPrefix)
  {
    var x := NestedExcerpt(last).value;
    var m := FilterMap(NestedExcerpt, init);
    forall i | 0 <= i < |m| ensures m[i].source != x.source {
      FilterMapMembers(NestedExcerpt, init, m[i]);
      var p :| 0 <= p < |init| && NestedExcerpt(init[p]) == Some(m[i]);
      PrefixCancel(PartsPrefix, init[p].0.s, last.0.s);
    }
    assert x.source[..|PartsPrefix|] == PartsPrefix;
  }

  lemma {:induction false} FlatExcerptsShape(entries: PArray, seen: set<Bytes>)
    requires DistinctKeys(entries)
    ensures var f := FlatExcerpts(entries, seen);
      && DistinctSources(f)
      && forall i :: 0 <= i < |f| ==>
           StartsWith(f[i].source, PartsPrefix) && f[i].excerpt != "" && f[i].source !in seen
           && exists p :: 0 <= p < |entries| && entries[p] == (KStr(f[i].source), Str(f[i].excerpt))
  {
    if entries != [] {
      var init := entries[..|entries| - 1];
      var last := entries[|entries| - 1];
      assert DistinctKeys(init) by {
        forall p, q | 0 <= p < q < |init| ensures init[p].0 != init[q].0 {
          assert init[p] == entries[p] && init[q] == entries[q];
        }
      }
      FlatExcerptsShape(init, seen);
      var m := FlatExcerpts(init, seen);
      forall i | 0 <= i < |m| ensures exists p :: 0 <= p < |entries| && entries[p] == (KStr(m[i].source), Str(m[i].excerpt)) {
        var p :| 0 <= p < |init| && init[p] == (KStr(m[i].source), Str(m[i].excerpt));
        assert entries[p] == init[p];
      }
      var x := FlatExcerpt(last, seen);
      if x != [] {
        forall i | 0 <= i < |m| ensures m[i].source != x[0].source {
          var p :| 0 <= p < |init| && init[p] == (KStr(m[i].source), Str(m[i].excerpt));
          assert init[p] == entries[p];
          assert entries[p].0 != entries[|entries| - 1].0;
        }
        assert entries[|entries| - 1] == (KStr(x[0].source), Str(x[0].excerpt));
      }
    }
  }

  lemma PrefixCancel(p: Bytes, a: Bytes, b: Bytes)
    ensures p + a == p + b ==> a == b
  {
    if p + a == p + b {
      assert a == (p + a)[|p|..];
      assert b == (p + b)[|p|..];
    }
  }

  lemma {:induction false} PrefixedNotField(s: Bytes)
    requires StartsWith(s, PartsPrefix)
    ensures s !in ExcerptFields
  {
    assert s[0] == 'p';
  }

  /**
   * Every excerpt has non-empty text and a source that is "content", "title"
   * or starts with "parts."; on an answer whose arrays have distinct keys the
   * sources are pairwise distinct.
   */
  lemma ExcerptsShape(formatted: PArray)
    requires DistinctKeys(formatted) && DistinctKeys(NestedParts(formatted))
    ensures var x := Excerpts(formatted);
      && DistinctSources(x)
      && forall i :: 0 <= i < |x| ==>
           x[i].excerpt != "" && (x[i].source in ExcerptFields || StartsWith(x[i].source, PartsPrefix))
  {
    var f := FieldExcerpts(formatted, ExcerptFields);
    var n := NestedExcerpts(formatted);
    var head := f + n;
    var flat := FlatExcerpts(formatted, Sources(head));
    FieldExcerptsShape(formatted);
    NestedExcerptsShape(NestedParts(formatted));
    FlatExcerptsShape(formatted, Sources(head));
    SourcesMembers(head);
    var x := head + flat;
    assert DistinctSources(head) by {
      forall i, j | 0 <= i < j < |head| ensures head[i].source != head[j].source {
        if i < |f| && j >= |f| {
          assert head[j] == n[j - |f|];
          if head[i].source == head[j].source {
            PrefixedNotField(n[j - |f|].source);
          }
        }
      }
    }
    forall i, j | 0 <= i < j < |x| ensures x[i].source != x[j].source {
      if i < |head| && j >= |head| {
        assert x[j] == flat[j - |head|];
        assert x[i] == head[i];
      }
    }
  }

  /**
   * A nested `parts[name]` with text yields the excerpt `parts.<name>`, and no
   * flat `"parts.<name>"` key adds a second one.
   */
  lemma NestedSuppressesFlat(formatted: PArray, name: Bytes, text: Bytes)
    requires (KStr(name), Str(text)) in NestedParts(formatted) && text != ""
    ensures Excerpt(PartsPrefix + name, text) in Excerpts(formatted)
    ensures var head := FieldExcerpts(formatted, ExcerptFields) + NestedExcerpts(formatted);
      forall i :: 0 <= i < |FlatExcerpts(formatted, Sources(head))| ==>
        FlatExcerpts(formatted, Sources(head))[i].source != PartsPrefix + name
  {
    var es := NestedParts(formatted);
    var p :| 0 <= p < |es| && es[p] == (KStr(name), Str(text));
    FilterMapMembers(NestedExcerpt, es, Excerpt(PartsPrefix + name, text));
    var f := FieldExcerpts(formatted, ExcerptFields);
    var head := f + NestedExcerpts(formatted);
    var k := FilterMap(NestedExcerpt, es);
    var q :| 0 <= q < |k| && k[q] == Excerpt(PartsPrefix + name, text);
    assert head[|f| + q] == k[q];
    SourcesMembers(head);
    assert PartsPrefix + name in Sources(head);
    FlatExcerptsDisjoint(formatted, Sources(head));
  }

  lemma {:induction false} FlatExcerptsDisjoint(entries: PArray, seen: set<Bytes>)
    ensures forall i :: 0 <= i < |FlatExcerpts(entries, seen)| ==> FlatExcerpts(entries, seen)[i].source !in seen
  {
    if entries != [] {
      FlatExcerptsDisjoint(entries[..|entries| - 1], seen);
    }
  }

  // ---------------------------------------------------------------------------
  // Hits (parseSearchEntry and the hit loop of searchRequest)
  // ---------------------------------------------------------------------------

  /** A document mapped from a hit; its access record holds only the viewer. */
  datatype Hit = Hit(
    providerId: Bytes,
    documentId: Bytes,
    viewerId: Bytes,
    hash: Bytes,
    modifiedTime: int,
    score: Bytes,
    source: Bytes,
    title: Bytes,
    excerpts: seq<Excerpt>)

  /** `$raw['hits'] ?? []`, a non-array counting as empty. */
  function HitsOf(raw: PArray): seq<Value> {
    match Coalesce(raw, KStr(HitsKey), Arr([]))
    case Arr(es) => Values(es)
    case _ => []
  }

  /** An entry the hit loop maps: an array with an `id` key. */
  predicate IsHitEntry(v: Value) {
    v.Arr? && HasKey(v.entries, KStr(IdKey))
  }

  /** `$entry['_formatted'] ?? []`, a non-array counting as empty. */
  function FormattedOf(entry: PArray): PArray {
    match Coalesce(entry, KStr(FormattedKey), Arr([]))
    case Arr(es) => es
    case _ => []
  }

  /** `(string)$entry['id']`. */
  function EntryId(entry: PArray): Bytes {
    match Get(entry, KStr(IdKey))
    case Some(v) => ToStr(v)
    case None => ""
  }

  /** `parseSearchEntry`. */
  function ParseSearchEntry(entry: PArray, viewerId: Bytes): Hit {
    var (providerId, documentId) := IndexMapping.DecodeDocumentId(EntryId(entry));
    Hit(providerId, documentId, viewerId,
        TextField(entry, HashKey), IntField(entry, LastModifiedKey), "0",
        TextField(entry, SourceKey), TextField(entry, TitleKey),
        Excerpts(FormattedOf(entry)))
  }

  /** What one element of `hits` adds: a document for an array with an `id` key, else nothing. */
  function HitOf(viewerId: Bytes): Value -> Option<Hit> {
    v => if IsHitEntry(v) then Some(ParseSearchEntry(v.entries, viewerId)) else None
  }

  /** The documents the hit loop adds, in order. */
  function HitDocuments(hits: seq<Value>, viewerId: Bytes): seq<Hit> {
    FilterMap(HitOf(viewerId), hits)
  }

  /**
   * Each element of `hits` contributes, at its own position, exactly one
   * document when it is an array with an `id` key and nothing otherwise.
   */
  lemma HitDocumentsSplit(hits: seq<Value>, i: int, viewerId: Bytes)
    requires 0 <= i < |hits|
    ensures HitDocuments(hits, viewerId)
            == HitDocuments(hits[..i], viewerId)
               + (if IsHitEntry(hits[i]) then [ParseSearchEntry(hits[i].entries, viewerId)] else [])
               + HitDocuments(hits[i + 1..], viewerId)
  {
    var f := HitOf(viewerId);
    assert hits == (hits[..i] + [hits[i]]) + hits[i + 1..];
    FilterMapAppend(f, hits[..i] + [hits[i]], hits[i + 1..]);
    FilterMapSnoc(f, hits[..i], hits[i]);
  }

  /**
   * There are at most as many documents as hits, and each one is a parsed
   * hit entry carrying the viewer and score "0".
   */
  lemma HitDocumentsViewer(hits: seq<Value>, viewerId: Bytes)
    ensures var d := HitDocuments(hits, viewerId);
      && |d| <= |hits|
      && forall h :: h in d ==>
           (h.viewerId == viewerId && h.score == "0"
            && exists i :: 0 <= i < |hits| && IsHitEntry(hits[i]) && h == ParseSearchEntry(hits[i].entries, viewerId))
  {
    var f := HitOf(viewerId);
    FilterMapLength(f, hits);
    forall h | h in HitDocuments(hits, viewerId)
      ensures h.viewerId == viewerId && h.score == "0"
      ensures exists i :: 0 <= i < |hits| && IsHitEntry(hits[i]) && h == ParseSearchEntry(hits[i].entries, viewerId)
    {
      FilterMapMembers(f, hits, h);
      var i :| 0 <= i < |hits| && f(hits[i]) == Some(h);
      assert IsHitEntry(hits[i]) && h == ParseSearchEntry(hits[i].entries, viewerId);
    }
  }

  /**
   * A hit whose id the indexer produced maps back to the indexed document's
   * identity, whenever the codec round-trips for the pair.
   */
  lemma HitIdentity(entry: PArray, viewerId: Bytes, providerId: Bytes, documentId: Bytes)
    requires Get(entry, KStr(IdKey)) == Some(Str(IndexMapping.EncodeDocumentId(providerId, documentId)))
    requires IndexMapping.RoundTrips(providerId, documentId)
    ensures var h := ParseSearchEntry(entry, viewerId);
      h.providerId == providerId && h.documentId == documentId && h.viewerId == viewerId
  {
    IndexMapping.EncodeRoundTrip(providerId, documentId);
  }

  /**
   * A hit on a stored body reads back the document's hash, modification
   * time, source and title.
   */
  lemma StoredHitFields(entry: PArray, doc: IndexDocument, content: Bytes, viewerId: Bytes)
    requires IndexMapping.StoresBody(entry, doc, content)
    ensures var h := ParseSearchEntry(entry, viewerId);
      h.hash == doc.hash && h.modifiedTime == doc.modifiedTime && h.source == doc.source && h.title == doc.title
  {
    assert TextField(entry, HashKey) == doc.hash;
    assert IntField(entry, LastModifiedKey) == doc.modifiedTime;
  }

  /**
   * A hit on the payload the indexer sent reads back the indexed document's
   * hash, modification time, source and title.
   */
  lemma IndexedHitFields(doc: IndexDocument, base64Decode: Bytes -> Option<Bytes>, isUtf8: Bytes -> bool, viewerId: Bytes)
    ensures var h := ParseSearchEntry(IndexMapping.IndexPayload(doc, base64Decode, isUtf8), viewerId);
      h.hash == doc.hash && h.modifiedTime == doc.modifiedTime && h.source == doc.source && h.title == doc.title
  {
    IndexMapping.PayloadStoresBody(doc, base64Decode, isUtf8);
    StoredHitFields(IndexMapping.IndexPayload(doc, base64Decode, isUtf8), doc,
                    IndexMapping.IndexedContent(doc, base64Decode, isUtf8), viewerId);
  }

  // ---------------------------------------------------------------------------
  // searchRequest
  // ---------------------------------------------------------------------------

  /** What the engine answers to a search: the raw response, or a client exception. */
  datatype SearchAnswer = Answered(raw: PArray) | SearchFailed(error: ClientError)

  /** The `ISearchResult` a search request fills in. */
  class SearchResult {
    var rawResult: Bytes
    var total: int
    var maxScore: int
    var time: int
    var timedOut: bool
    var documents: seq<Hit>

    constructor ()
      ensures rawResult == "" && total == 0 && maxScore == 0 && time == 0 && !timedOut && documents == []
    {
      rawResult, total, maxScore, time, timedOut, documents := "", 0, 0, 0, false, [];
    }

    /** `updateSearchResult`. */
    method UpdateSearchResult(raw: PArray, jsonEncode: PArray -> Option<Bytes>)
      modifies this
      ensures rawResult == JsonOrEmpty(jsonEncode(raw))
      ensures total == Total(raw) && maxScore == 0 && time == ProcessingTime(raw) && !timedOut
      ensures documents == old(documents)
    {
      rawResult := JsonOrEmpty(jsonEncode(raw));
      total := Total(raw);
      maxScore := 0;
      time := ProcessingTime(raw);
      timedOut := false;
    }

    /** `addDocument`. */
    method AddDocument(d: Hit)
      modifies this
      ensures documents == old(documents) + [d]
      ensures rawResult == old(rawResult) && total == old(total) && maxScore == old(maxScore)
      ensures time == old(time) && timedOut == old(timedOut)
    {
      documents := documents + [d];
    }
  }

  /**
   * `searchRequest`: build the query, run it on the configured index, record
   * the response metadata and add one document per hit entry.  A missing
   * index name or a client exception is raised before the result is touched.
   * `search` is the engine's answer for an index name and a query.
   */
  method SearchRequest(
    result: SearchResult,
    request: SearchMapping.SearchRequest,
    access: ViewerAccess,
    providerId: Bytes,
    configuredIndex: Bytes,
    search: (Bytes, SearchMapping.SearchQuery) -> SearchAnswer,
    jsonEncode: PArray -> Option<Bytes>)
    returns (failure: Option<Failure>)
    modifies result
    ensures var answer := search(configuredIndex, SearchMapping.SearchQueryFor(request, access, providerId));
      && (configuredIndex == "" ==> failure == Some(ConfigurationFailure))
      && (configuredIndex != "" && answer.SearchFailed? ==> failure == Some(ClientFailure(answer.error)))
      && (failure.Some? ==> unchanged(result))
      && (configuredIndex != "" && answer.Answered? ==>
            && failure.None?
            && result.rawResult == JsonOrEmpty(jsonEncode(answer.raw))
            && result.total == Total(answer.raw)
            && result.maxScore == 0
            && result.time == ProcessingTime(answer.raw)
            && !result.timedOut
            && result.documents == old(result.documents) + HitDocuments(HitsOf(answer.raw), access.viewerId))
  {
    var query := SearchMapping.GenerateSearchQuery(request, access, providerId);
    var index := IndexName(configuredIndex);
    if index.None? {
      return Some(ConfigurationFailure);
    }
    var answer := search(index.value, query);
    if answer.SearchFailed? {
      return Some(ClientFailure(answer.error));
    }
    failure := None;
    var raw := answer.raw;
    result.UpdateSearchResult(raw, jsonEncode);
    AddHitDocuments(result, HitsOf(raw), HitOf(access.viewerId));
  }

  /**
   * The hit loop of `searchRequest`: add each parsed hit in order.  `parse`
   * is the mapping applied to one element of `hits`; `searchRequest` passes
   * `HitOf` for the viewer.
   */
  method AddHitDocuments(result: SearchResult, hits: seq<Value>, parse: Value -> Option<Hit>)
    modifies result
    ensures result.documents == old(result.documents) + FilterMap(parse, hits)
    ensures result.rawResult == old(result.rawResult) && result.total == old(result.total)
    ensures result.maxScore == old(result.maxScore) && result.time == old(result.time)
    ensures result.timedOut == old(result.timedOut)
  {
    var i := 0;
    while i < |hits|
      invariant 0 <= i <= |hits|
      invariant result.documents == old(result.documents) + FilterMap(parse, hits[..i])
      invariant result.rawResult == old(result.rawResult) && result.total == old(result.total)
      invariant result.maxScore == old(result.maxScore) && result.time == old(result.time)
      invariant result.timedOut == old(result.timedOut)
    {
      assert hits[..i + 1] == hits[..i] + [hits[i]];
      FilterMapSnoc(parse, hits[..i], hits[i]);
      var hit := parse(hits[i]);
      if hit.Some? {
        result.AddDocument(hit.value);
      }
      i := i + 1;
    }
    assert hits[..i] == hits;
  }

  // ---------------------------------------------------------------------------
  // getDocument
  // ---------------------------------------------------------------------------

  /** What the engine answers to a document fetch. */
  datatype Fetch = Fetched(document: Value) | FetchFailed(error: ClientError)

  /** A candidate the lookup moves past: a 404 ApiException on a candidate unequal to the last one. */
  predicate Skipped(docIds: seq<Bytes>, fetch: Bytes -> Fetch, k: int) {
    && 0 <= k < |docIds|
    && fetch(docIds[k]) == FetchFailed(ApiError(404))
    && docIds[k] != docIds[|docIds| - 1]
  }

  /**
   * The candidate loop of `getDocument` from candidate `i` on: the first
   * fetched value, the exception that ends the loop, or None when the
   * candidates run out.  "Last" compares ids by value, as `===` does.
   */
  function LookupFrom(docIds: seq<Bytes>, i: nat, fetch: Bytes -> Fetch): Result<Option<Value>>
    decreases |docIds| - i
  {
    if i >= |docIds| then Ok(None)
    else
      match fetch(docIds[i])
      case Fetched(v) => Ok(Some(v))
      case FetchFailed(e) =>
        if Skipped(docIds, fetch, i) then LookupFrom(docIds, i + 1, fetch)
        else Err(ClientFailure(e))
  }

  /**
   * The lookup returns `v` exactly when some candidate fetches `v` and every
   * candidate before it was skipped.
   */
  lemma {:induction false} LookupFound(docIds: seq<Bytes>, i: nat, fetch: Bytes -> Fetch, v: Value)
    requires i <= |docIds|
    ensures LookupFrom(docIds, i, fetch) == Ok(Some(v)) <==>
      exists j :: i <= j < |docIds| && fetch(docIds[j]) == Fetched(v)
                  && forall k :: i <= k < j ==> Skipped(docIds, fetch, k)
    decreases |docIds| - i
  {
    if i < |docIds| {
      LookupFound(docIds, i + 1, fetch, v);
      if exists j :: i <= j < |docIds| && fetch(docIds[j]) == Fetched(v)
                     && forall k :: i <= k < j ==> Skipped(docIds, fetch, k) {
        var j :| i <= j < |docIds| && fetch(docIds[j]) == Fetched(v)
                 && forall k :: i <= k < j ==> Skipped(docIds, fetch, k);
        if j > i {
          assert Skipped(docIds, fetch, i);
          assert i + 1 <= j && forall k :: i + 1 <= k < j ==> Skipped(docIds, fetch, k);
        }
      }
      if LookupFrom(docIds, i, fetch) == Ok(Some(v)) && !fetch(docIds[i]).Fetched? {
        var j :| i + 1 <= j < |docIds| && fetch(docIds[j]) == Fetched(v)
                 && forall k :: i + 1 <= k < j ==> Skipped(docIds, fetch, k);
        assert forall k :: i <= k < j ==> Skipped(docIds, fetch, k);
      }
    }
  }

  /**
   * The lookup raises `e` exactly when some candidate fails with `e`, is not
   * skipped (a non-404 error, any non-API error, or the last candidate), and
   * every candidate before it was skipped.
   */
  lemma {:induction false} LookupFails(docIds: seq<Bytes>, i: nat, fetch: Bytes -> Fetch, e: ClientError)
    requires i <= |docIds|
    ensures LookupFrom(docIds, i, fetch) == Err(ClientFailure(e)) <==>
      exists j :: i <= j < |docIds| && fetch(docIds[j]) == FetchFailed(e) && !Skipped(docIds, fetch, j)
                  && forall k :: i <= k < j ==> Skipped(docIds, fetch, k)
    decreases |docIds| - i
  {
    if i < |docIds| {
      LookupFails(docIds, i + 1, fetch, e);
      if exists j :: i <= j < |docIds| && fetch(docIds[j]) == FetchFailed(e) && !Skipped(docIds, fetch, j)
                     && forall k :: i <= k < j ==> Skipped(docIds, fetch, k) {
        var j :| i <= j < |docIds| && fetch(docIds[j]) == FetchFailed(e) && !Skipped(docIds, fetch, j)
                 && forall k :: i <= k < j ==> Skipped(docIds, fetch, k);
        if j > i {
          assert Skipped(docIds, fetch, i);
          assert i + 1 <= j && forall k :: i + 1 <= k < j ==> Skipped(docIds, fetch, k);
        }
      }
      if LookupFrom(docIds, i, fetch) == Err(ClientFailure(e)) && Skipped(docIds, fetch, i) {
        var j :| i + 1 <= j < |docIds| && fetch(docIds[j]) == FetchFailed(e) && !Skipped(docIds, fetch, j)
                 && forall k :: i + 1 <= k < j ==> Skipped(docIds, fetch, k);
        assert forall k :: i <= k < j ==> Skipped(docIds, fetch, k);
      }
    }
  }

  /**
   * With at least one candidate the loop never runs out: the last candidate
   * either returns a value or raises.
   */
  lemma {:induction false} LookupNeverRunsOut(docIds: seq<Bytes>, i: nat, fetch: Bytes -> Fetch)
    requires i < |docIds|
    ensures LookupFrom(docIds, i, fetch) != Ok(None)
    decreases |docIds| - i
  {
    if Skipped(docIds, fetch, i) {
      assert i != |docIds| - 1;
      LookupNeverRunsOut(docIds, i + 1, fetch);
    }
  }

  /** The type an info field is stored with: array, bool, int (numeric values), else string. */
  function InfoValue(v: Value): Value {
    if v.Arr? then v
    else if v.Bool? then v
    else if IsNumeric(v) then Int(ToInt(v))
    else Str(ToStr(v))
  }

  const InfoPrefix: Bytes := "info_"

  /**
   * `getDocumentInfos` on a document whose info fields are `info`: every
   * string key not prefixed "info_" becomes an info field; an integer key
   * makes `str_starts_with` raise a TypeError under strict types (None).
   */
  function Infos(info: PArray, source: PArray): Option<PArray> {
    if source == [] then Some(info)
    else
      match Infos(info, source[..|source| - 1])
      case None => None
      case Some(acc) =>
        var (k, v) := source[|source| - 1];
        match k
        case KInt(_) => None
        case KStr(s) => if StartsWith(s, InfoPrefix) then Some(acc) else Some(Put(acc, k, InfoValue(v)))
  }

  /** `getDocumentInfos`. */
  method GetDocumentInfos(info: PArray, source: PArray) returns (r: Option<PArray>)
    ensures r == Infos(info, source)
  {
    var acc := info;
    var i := 0;
    while i < |source|
      invariant 0 <= i <= |source|
      invariant Infos(info, source[..i]) == Some(acc)
    {
      assert source[..i + 1][..i] == source[..i];
      var (k, value) := source[i];
      if k.KInt? {
        Truncated(info, source, i + 1);
        return None;
      }
      if !StartsWith(k.s, InfoPrefix) {
        acc := Put(acc, k, InfoValue(value));
      }
      i := i + 1;
    }
    assert source[..i] == source;
    r := Some(acc);
  }

  /** Once a prefix fails, the whole key loop fails. */
  lemma {:induction false} Truncated(info: PArray, source: PArray, n: int)
    requires 0 <= n <= |source| && Infos(info, source[..n]).None?
    ensures Infos(info, source).None?
    decreases |source| - n
  {
    if n < |source| {
      assert source[..n + 1][..n] == source[..n];
      Truncated(info, source, n + 1);
    } else {
      assert source[..n] == source;
    }
  }

  /** The key loop fails exactly when the stored document has an integer key. */
  lemma {:induction false} InfosFail(info: PArray, source: PArray)
    ensures Infos(info, source).None? <==> exists i :: 0 <= i < |source| && source[i].0.KInt?
  {
    if source != [] {
      var init := source[..|source| - 1];
      InfosFail(info, init);
      if exists i :: 0 <= i < |init| && init[i].0.KInt? {
        var i :| 0 <= i < |init| && init[i].0.KInt?;
        assert source[i] == init[i];
      }
      if exists i :: 0 <= i < |source| && source[i].0.KInt? {
        var i :| 0 <= i < |source| && source[i].0.KInt?;
        if i < |init| {
          assert init[i] == source[i];
        }
      }
    }
  }

  /**
   * On success, a stored string key not prefixed "info_" holds its typed
   * value; any other key keeps the info field it had.
   */
  lemma {:induction false} InfosGet(info: PArray, source: PArray, k: Bytes)
    requires DistinctKeys(source) && Infos(info, source).Some?
    ensures var r := Infos(info, source).value;
      && (forall i :: 0 <= i < |source| && source[i].0 == KStr(k) && !StartsWith(k, InfoPrefix) ==>
            Get(r, KStr(k)) == Some(InfoValue(source[i].1)))
      && (StartsWith(k, InfoPrefix) || !HasKey(source, KStr(k)) ==> Get(r, KStr(k)) == Get(info, KStr(k)))
  {
    if source != [] {
      var init := source[..|source| - 1];
      var last := source[|source| - 1];
      assert DistinctKeys(init) by {
        forall p, q | 0 <= p < q < |init| ensures init[p].0 != init[q].0 {
          assert init[p] == source[p] && init[q] == source[q];
        }
      }
      InfosGet(info, init, k);
      var acc := Infos(info, init).value;
      var r := Infos(info, source).value;
      assert Get(r, KStr(k)) == (if last.0 == KStr(k) && !StartsWith(k, InfoPrefix) then Some(InfoValue(last.1)) else Get(acc, KStr(k)));
      forall i | 0 <= i < |source| && source[i].0 == KStr(k) && !StartsWith(k, InfoPrefix)
        ensures Get(r, KStr(k)) == Some(InfoValue(source[i].1))
      {
        if i < |init| {
          assert init[i] == source[i];
          assert source[i].0 != last.0;
        }
      }
      if !HasKey(source, KStr(k)) {
        assert last.0 != KStr(k);
      }
    }
  }

  /** `$result` after the candidate loop: the fetched array, or [] when it is not one. */
  function StoredArray(found: Option<Value>): PArray {
    if found.Some? && found.value.Arr? then found.value.entries else []
  }

  /** `$result[k] ?? default`. */
  function Stored(stored: PArray, k: Bytes, default: Value): Value {
    Coalesce(stored, KStr(k), default)
  }

  /** The document `getDocument` rebuilds from a stored array, with its info fields. */
  function RebuiltDocument(providerId: Bytes, documentId: Bytes, stored: PArray, info: PArray): IndexDocument {
    var access := DocumentAccess(
      ToStr(Stored(stored, OwnerKey, Str(""))),
      ToArray(Stored(stored, UsersKey, Arr([]))),
      ToArray(Stored(stored, GroupsKey, Arr([]))),
      ToArray(Stored(stored, CirclesKey, Arr([]))),
      ToArray(Stored(stored, LinksKey, Arr([]))));
    IndexDocument(
      providerId, documentId, access,
      ToArray(Stored(stored, MetaTagsKey, Arr([]))),
      ToArray(Stored(stored, SubTagsKey, Arr([]))),
      ToArray(Stored(stored, TagsKey, Arr([]))),
      ToStr(Stored(stored, HashKey, Str(""))),
      ToInt(Stored(stored, LastModifiedKey, Int(0))),
      ToStr(Stored(stored, SourceKey, Str(""))),
      ToStr(Stored(stored, TitleKey, Str(""))),
      ToArray(Stored(stored, PartsKey, Arr([]))),
      TextField(stored, ContentKey),
      Plain,
      info)
  }

  /** The outcome of `getDocument`. */
  function GetDocumentResult(
    configuredIndex: Bytes, providerId: Bytes, documentId: Bytes,
    docIds: seq<Bytes>, fetch: Bytes -> Fetch): Result<IndexDocument>
  {
    if IndexName(configuredIndex).None? then Err(ConfigurationFailure)
    else
      match LookupFrom(docIds, 0, fetch)
      case Err(f) => Err(f)
      case Ok(found) =>
        var stored := StoredArray(found);
        match Infos([], stored)
        case None => Err(TypeFailure)
        case Some(info) => Ok(RebuiltDocument(providerId, documentId, stored, info))
  }

  /**
   * `getDocument`: try the candidate ids in order, then rebuild the document
   * from what was fetched.  `docIds` stands for
   * `getDocumentIdCandidates($providerId, $documentId)` and `fetch` for the
   * engine's answer to a fetch by id.
   */
  method GetDocument(
    configuredIndex: Bytes, providerId: Bytes, documentId: Bytes,
    docIds: seq<Bytes>, fetch: Bytes -> Fetch)
    returns (r: Result<IndexDocument>)
    ensures r == GetDocumentResult(configuredIndex, providerId, documentId, docIds, fetch)
  {
    if IndexName(configuredIndex).None? {
      return Err(ConfigurationFailure);
    }
    var result: Option<Value> := None;
    var i := 0;
    while i < |docIds|
      invariant 0 <= i <= |docIds|
      invariant result.None? ==> LookupFrom(docIds, 0, fetch) == LookupFrom(docIds, i, fetch)
      invariant result.Some? ==> LookupFrom(docIds, 0, fetch) == Ok(result)
      decreases |docIds| - i, if result.None? then 1 else 0
    {
      if result.Some? {
        break;
      }
      var answer := fetch(docIds[i]);
      if answer.Fetched? {
        result := Some(answer.document);
      } else {
        var e := answer.error;
        var isLastCandidate := docIds[i] == docIds[|docIds| - 1];
        if isLastCandidate || !e.ApiError? || e.code != 404 {
          return Err(ClientFailure(e));
        }
        i := i + 1;
      }
    }
    var stored := StoredArray(result);
    var info := GetDocumentInfos([], stored);
    if info.None? {
      return Err(TypeFailure);
    }
    r := Ok(RebuiltDocument(providerId, documentId, stored, info.value));
  }

  /** With no candidate, or nothing stored, every field takes its default. */
  lemma NothingStoredDefaults(configuredIndex: Bytes, providerId: Bytes, documentId: Bytes, fetch: Bytes -> Fetch)
    requires configuredIndex != ""
    ensures GetDocumentResult(configuredIndex, providerId, documentId, [], fetch)
            == Ok(IndexDocument(providerId, documentId, DocumentAccess("", [], [], [], []),
                                [], [], [], "", 0, "", "", [], "", Plain, []))
  {
  }

  /**
   * A document rebuilt from a stored body reads back the document's access,
   * tags, hash, time, source, title, parts and content.
   */
  lemma RebuiltFromStored(providerId: Bytes, documentId: Bytes, stored: PArray, info: PArray, doc: IndexDocument, content: Bytes)
    requires IndexMapping.StoresBody(stored, doc, content)
    ensures var r := RebuiltDocument(providerId, documentId, stored, info);
      && r.access == doc.access
      && r.metaTags == doc.metaTags && r.subTags == doc.subTags && r.tags == doc.tags
      && r.hash == doc.hash && r.modifiedTime == doc.modifiedTime
      && r.source == doc.source && r.title == doc.title && r.parts == doc.parts
      && r.content == content
  {
  }

  /**
   * A document rebuilt from the payload the indexer sent reads back the
   * indexed document, its content as indexed.
   */
  lemma RebuiltFromPayload(doc: IndexDocument, base64Decode: Bytes -> Option<Bytes>, isUtf8: Bytes -> bool, info: PArray)
    ensures var r := RebuiltDocument(doc.providerId, doc.id, IndexMapping.IndexPayload(doc, base64Decode, isUtf8), info);
      && r.access == doc.access
      && r.metaTags == doc.metaTags && r.subTags == doc.subTags && r.tags == doc.tags
      && r.hash == doc.hash && r.modifiedTime == doc.modifiedTime
      && r.source == doc.source && r.title == doc.title && r.parts == doc.parts
      && r.content == IndexMapping.IndexedContent(doc, base64Decode, isUtf8)
  {
    IndexMapping.PayloadStoresBody(doc, base64Decode, isUtf8);
    RebuiltFromStored(doc.providerId, doc.id, IndexMapping.IndexPayload(doc, base64Decode, isUtf8), info,
                      doc, IndexMapping.IndexedContent(doc, base64Decode, isUtf8));
  }
}
