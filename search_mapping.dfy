/**
 * `SearchMappingService`: compiles a search request into a Meilisearch query,
 * namely a filter expression (provider, access, meta tags, sub tags, typed
 * simple queries and a time window, joined with AND), pagination and the list
 * of attributes to highlight.  Every user-supplied string reaches the filter
 * through `EscapeFilterValue`.
 */
module SearchMapping {
  import opened Php
  import opened Host
  import IndexMapping

  const DefaultPageSize: int := 20

  const FilterableFields: seq<Bytes> := [
    "owner", "users", "groups", "circles", "links",
    "provider", "metatags", "subtags", "tags", "source",
    "lastModified"]

  const OrSeparator: Bytes := " OR "
  const AndSeparator: Bytes := " AND "

  // The fixed pieces of the filter clauses.
  const OpenParen: Bytes := "("
  const CloseParen: Bytes := ")"
  const Quote: Bytes := "'"
  const ProviderClausePrefix: Bytes := "provider = '"
  const SincePrefix: Bytes := "lastModified >= "

  /** The access clause every search carries: documents shared with everyone. */
  const PublicClause: Bytes := "users = '__all'"

  // ---------------------------------------------------------------------------
  // Requests
  // ---------------------------------------------------------------------------

  /** `ISearchRequestSimpleQuery::COMPARE_TYPE_*`, and any other code. */
  datatype CompareType =
    | Text | Keyword | ArrayType
    | IntEq | IntGte | IntLte | IntGt | IntLt
    | BoolType | Regex | Wildcard
    | UnknownType

  datatype SimpleQuery = SimpleQuery(field: Bytes, kind: CompareType, values: seq<Value>)

  /** An entry of `getSimpleQueries()`: a simple query or something else. */
  datatype QueryEntry = Query(query: SimpleQuery) | NotAQuery

  datatype SearchRequest = SearchRequest(
    search: Bytes,
    page: int,
    size: int,
    metaTags: seq<Value>,
    subTags: seq<Value>,
    simpleQueries: seq<QueryEntry>,
    since: Value,
    parts: seq<Value>)

  /** The query handed to the engine: the query string and its parameters. */
  datatype SearchQuery = SearchQuery(
    query: Bytes,
    filter: Bytes,
    limit: int,
    offset: int,
    attributesToHighlight: seq<Bytes>,
    highlightPreTag: Bytes,
    highlightPostTag: Bytes,
    showMatchesPosition: bool)

  // ---------------------------------------------------------------------------
  // Escaping
  // ---------------------------------------------------------------------------

  /** `escapeFilterValue`: `str_replace(['\\', "'"], ['\\\\', "\\'"], $value)`. */
  function EscapeFilterValue(value: Bytes): Bytes {
    ReplaceAll(ReplaceAll(value, "\\", "\\\\"), "'", "\\'")
  }

  /** What escaping does to one byte. */
  function EscapeByte(c: Byte): Bytes {
    if c == '\\' then "\\\\" else if c == '\'' then "\\'" else [c]
  }

  function EscapeBytewise(value: Bytes): Bytes {
    if value == [] then [] else EscapeByte(value[0]) + EscapeBytewise(value[1..])
  }

  function Count(s: Bytes, c: Byte): nat {
    if s == [] then 0 else (if s[0] == c then 1 else 0) + Count(s[1..], c)
  }

  /**
   * How the engine reads the inside of a single-quoted filter string: a
   * backslash takes the next byte literally, an unescaped quote ends the
   * string.  The result is the value read and what follows the closing quote.
   */
  function ReadQuoted(s: Bytes): Option<(Bytes, Bytes)>
    decreases |s|
  {
    if s == [] then None
    else if s[0] == '\'' then Some(([], s[1..]))
    else if s[0] == '\\' then
      if |s| < 2 then None
      else
        match ReadQuoted(s[2..])
        case Some((v, rest)) => Some(([s[1]] + v, rest))
        case None => None
    else
      match ReadQuoted(s[1..])
      case Some((v, rest)) => Some(([s[0]] + v, rest))
      case None => None
  }

  /** The two sequential replacements amount to escaping byte by byte. */
  lemma {:induction false} EscapeIsBytewise(value: Bytes)
    ensures EscapeFilterValue(value) == EscapeBytewise(value)
    decreases |value|
  {
    if value != [] {
      var c, t := value[0], value[1..];
      assert value == [c] + t;
      ReplaceByteAppend([c], t, '\\', "\\\\");
      var r1c := ReplaceAll([c], "\\", "\\\\");
      ReplaceByteAppend(r1c, ReplaceAll(t, "\\", "\\\\"), '\'', "\\'");
      EscapeIsBytewise(t);
      var e: Bytes := "\\\\";
      assert e[1..] == "\\";
      assert ReplaceAll(r1c, "'", "\\'") == EscapeByte(c);
    }
  }

  /** Escaping adds one byte per backslash and per quote. */
  lemma {:induction false} EscapeLength(value: Bytes)
    ensures |EscapeFilterValue(value)| == |value| + Count(value, '\\') + Count(value, '\'')
    decreases |value|
  {
    EscapeIsBytewise(value);
    if value != [] {
      EscapeLength(value[1..]);
      EscapeIsBytewise(value[1..]);
    }
  }

  /**
   * Injection safety: after the opening quote the engine reads back exactly
   * the original value and stops at the plugin's closing quote, whatever the
   * value contains.
   */
  lemma {:induction false} EscapedValueReadsBack(value: Bytes, rest: Bytes)
    ensures ReadQuoted(EscapeFilterValue(value) + "'" + rest) == Some((value, rest))
    decreases |value|
  {
    EscapeIsBytewise(value);
    if value == [] {
      assert EscapeBytewise(value) + "'" + rest == "'" + rest;
    } else {
      var c, t := value[0], value[1..];
      EscapedValueReadsBack(t, rest);
      EscapeIsBytewise(t);
      var tail := EscapeBytewise(t) + "'" + rest;
      var s := EscapeBytewise(value) + "'" + rest;
      assert s == EscapeByte(c) + tail;
      if c == '\\' || c == '\'' {
        assert s[0] == '\\' && s[1] == c && s[2..] == tail;
      } else {
        assert s[0] == c && s[1..] == tail;
      }
      assert [c] + t == value;
    }
  }

  /** `field = '<escaped value>'`. */
  function EqualsClause(field: Bytes, value: Bytes): Bytes {
    field + " = '" + EscapeFilterValue(value) + "'"
  }

  /**
   * An equality clause parses back: the engine sees `field = '`, then reads
   * the value itself, then carries on with whatever followed the clause.
   */
  lemma EqualsClauseReadsBack(field: Bytes, value: Bytes, rest: Bytes)
    ensures var s := EqualsClause(field, value) + rest;
      && s[..|field| + 4] == field + " = '"
      && ReadQuoted(s[|field| + 4..]) == Some((value, rest))
  {
    var s := EqualsClause(field, value) + rest;
    assert s == (field + " = '") + (EscapeFilterValue(value) + "'" + rest);
    EscapedValueReadsBack(value, rest);
  }

  // ---------------------------------------------------------------------------
  // Clause lists built by the loops
  // ---------------------------------------------------------------------------

  /** One `field = 'v'` clause per scalar value, in order (non-scalars skipped). */
  function ScalarClauses(field: Bytes, values: seq<Value>): seq<Bytes> {
    if values == [] then []
    else
      var last := values[|values| - 1];
      ScalarClauses(field, values[..|values| - 1])
      + (if IsScalar(last) then [EqualsClause(field, ToStr(last))] else [])
  }

  lemma {:induction false} ScalarClausesMembers(field: Bytes, values: seq<Value>, c: Bytes)
    ensures c in ScalarClauses(field, values)
            <==> exists i :: 0 <= i < |values| && IsScalar(values[i]) && c == EqualsClause(field, ToStr(values[i]))
    decreases |values|
  {
    if values != [] {
      var init := values[..|values| - 1];
      ScalarClausesMembers(field, init, c);
      if exists i :: 0 <= i < |values| && IsScalar(values[i]) && c == EqualsClause(field, ToStr(values[i])) {
        var i :| 0 <= i < |values| && IsScalar(values[i]) && c == EqualsClause(field, ToStr(values[i]));
        if i < |values| - 1 { assert init[i] == values[i]; }
      }
      if exists i :: 0 <= i < |init| && IsScalar(init[i]) && c == EqualsClause(field, ToStr(init[i])) {
        var i :| 0 <= i < |init| && IsScalar(init[i]) && c == EqualsClause(field, ToStr(init[i]));
        assert values[i] == init[i];
      }
    }
  }

  lemma {:induction false} ScalarClausesEmpty(field: Bytes, values: seq<Value>)
    ensures ScalarClauses(field, values) == [] <==> forall i :: 0 <= i < |values| ==> !IsScalar(values[i])
    decreases |values|
  {
    if values != [] {
      var init := values[..|values| - 1];
      ScalarClausesEmpty(field, init);
      assert forall i :: 0 <= i < |init| ==> init[i] == values[i];
    }
  }

  /** `$parts[] = "$field = '...'"` for each scalar of `values`, appended to `parts`. */
  method AppendScalarClauses(parts: seq<Bytes>, field: Bytes, values: seq<Value>) returns (r: seq<Bytes>)
    ensures r == parts + ScalarClauses(field, values)
  {
    r := parts;
    var i := 0;
    while i < |values|
      invariant 0 <= i <= |values|
      invariant r == parts + ScalarClauses(field, values[..i])
    {
      assert values[..i + 1][..i] == values[..i];
      if IsScalar(values[i]) {
        r := r + [EqualsClause(field, ToStr(values[i]))];
      }
      i := i + 1;
    }
    assert values[..i] == values;
  }

  // ---------------------------------------------------------------------------
  // Access filter
  // ---------------------------------------------------------------------------

  /** The owner and user clauses for the viewer, present only for a non-blank viewer. */
  function ViewerClauses(viewerId: Bytes): seq<Bytes> {
    var v := Trim(viewerId);
    if v == "" then []
    else ["owner = '" + EscapeFilterValue(v) + "'", "users = '" + EscapeFilterValue(v) + "'"]
  }

  function AccessParts(access: ViewerAccess): seq<Bytes> {
    ViewerClauses(access.viewerId) + [PublicClause]
    + ScalarClauses(GroupsKey, access.groups)
    + ScalarClauses(CirclesKey, access.circles)
    + ScalarClauses(LinksKey, access.links)
  }

  /** The access filter's clauses after `array_unique`. */
  function AccessClauses(access: ViewerAccess): seq<Bytes> {
    Unique(AccessParts(access))
  }

  function AccessFilter(access: ViewerAccess): Bytes {
    Join(AccessClauses(access), OrSeparator)
  }

  /** `buildAccessFilter`. */
  method BuildAccessFilter(access: ViewerAccess) returns (r: Bytes)
    ensures r == AccessFilter(access)
  {
    var parts: seq<Bytes> := [];
    var viewerId := Trim(access.viewerId);
    if viewerId != "" {
      viewerId := EscapeFilterValue(viewerId);
      parts := parts + ["owner = '" + viewerId + "'"];
      parts := parts + ["users = '" + viewerId + "'"];
    }
    parts := parts + [PublicClause];
    ghost var viewerParts := parts;
    parts := AppendScalarClauses(parts, GroupsKey, access.groups);
    parts := AppendScalarClauses(parts, CirclesKey, access.circles);
    parts := AppendScalarClauses(parts, LinksKey, access.links);
    assert parts == viewerParts + ScalarClauses(GroupsKey, access.groups)
      + ScalarClauses(CirclesKey, access.circles) + ScalarClauses(LinksKey, access.links);
    assert viewerParts == ViewerClauses(access.viewerId) + [PublicClause];
    r := Join(Unique(parts), OrSeparator);
  }

  /** The owner and user clauses of a non-blank viewer differ. */
  lemma ViewerClausesDistinct(viewerId: Bytes)
    requires Trim(viewerId) != ""
    ensures |ViewerClauses(viewerId)| == 2 && Distinct(ViewerClauses(viewerId))
    ensures ViewerClauses(viewerId)[0] != "" && PublicClause !in ViewerClauses(viewerId)[..1]
  {
    var e := EscapeFilterValue(Trim(viewerId));
    var owner: Bytes := "owner = '" + e + "'";
    var user: Bytes := "users = '" + e + "'";
    assert owner[0] == 'o' && user[0] == 'u' && PublicClause[0] == 'u';
    assert ViewerClauses(viewerId) == [owner, user];
  }

  /**
   * The access clauses are distinct and include the public sentinel; for a
   * non-blank viewer they start with the viewer's owner and user clauses, and
   * for a blank one with the sentinel.
   */
  lemma AccessClausesShape(access: ViewerAccess)
    ensures var c := AccessClauses(access);
      && Distinct(c)
      && PublicClause in c
      && (Trim(access.viewerId) == "" ==> c[0] == PublicClause)
      && (Trim(access.viewerId) != "" ==> |c| >= 2 && c[..2] == ViewerClauses(access.viewerId))
  {
    var a := access;
    var viewer := ViewerClauses(a.viewerId);
    var rest := [PublicClause] + ScalarClauses(GroupsKey, a.groups)
                + ScalarClauses(CirclesKey, a.circles) + ScalarClauses(LinksKey, a.links);
    assert AccessParts(a) == viewer + rest;
    assert PublicClause in AccessParts(a);
    UniqueProperties(AccessParts(a));
    if Trim(a.viewerId) != "" {
      ViewerClausesDistinct(a.viewerId);
      UniqueKeepsDistinctPrefix(viewer, rest);
    } else {
      assert AccessParts(a)[0] == PublicClause;
      UniqueHead(AccessParts(a));
    }
  }

  /**
   * A clause is in the access filter exactly when it is a viewer clause, the
   * public sentinel, or the clause of a scalar group, circle or link.
   */
  lemma AccessClausesMembers(access: ViewerAccess, c: Bytes)
    ensures c in AccessClauses(access) <==>
      || c in ViewerClauses(access.viewerId)
      || c == PublicClause
      || (exists i :: 0 <= i < |access.groups| && IsScalar(access.groups[i])
                      && c == EqualsClause(GroupsKey, ToStr(access.groups[i])))
      || (exists i :: 0 <= i < |access.circles| && IsScalar(access.circles[i])
                      && c == EqualsClause(CirclesKey, ToStr(access.circles[i])))
      || (exists i :: 0 <= i < |access.links| && IsScalar(access.links[i])
                      && c == EqualsClause(LinksKey, ToStr(access.links[i])))
  {
    UniqueProperties(AccessParts(access));
    ScalarClausesMembers(GroupsKey, access.groups, c);
    ScalarClausesMembers(CirclesKey, access.circles, c);
    ScalarClausesMembers(LinksKey, access.links, c);
  }

  /** Joining a non-empty list of non-empty strings gives a non-empty string. */
  lemma JoinNonEmpty(xs: seq<Bytes>, sep: Bytes)
    requires xs != []
    ensures xs[0] != "" ==> Join(xs, sep) != ""
    ensures StartsWith(Join(xs, sep), xs[0])
  {
    if |xs| > 1 {
      assert Join(xs, sep) == xs[0] + (sep + Join(xs[1..], sep));
    }
  }

  /** The access filter is never empty. */
  lemma AccessFilterNonEmpty(access: ViewerAccess)
    ensures AccessFilter(access) != ""
  {
    AccessClausesShape(access);
    var c := AccessClauses(access);
    if Trim(access.viewerId) != "" {
      ViewerClausesDistinct(access.viewerId);
      assert c[0] == c[..2][0];
    }
    JoinNonEmpty(c, OrSeparator);
  }

  // ---------------------------------------------------------------------------
  // Tag filters
  // ---------------------------------------------------------------------------

  /** `buildTagFilter`: the meta-tag clauses joined with OR. */
  function TagFilter(field: Bytes, tags: seq<Value>): Bytes {
    if tags == [] then "" else Join(ScalarClauses(field, tags), OrSeparator)
  }

  /** `buildSubtagFilter`: the sub-tag clauses joined with AND. */
  function SubtagFilter(field: Bytes, tags: seq<Value>): Bytes {
    if tags == [] then "" else Join(ScalarClauses(field, tags), AndSeparator)
  }

  method BuildTagFilter(field: Bytes, tags: seq<Value>) returns (r: Bytes)
    ensures r == TagFilter(field, tags)
  {
    if tags == [] {
      return "";
    }
    var parts := AppendScalarClauses([], field, tags);
    assert parts == ScalarClauses(field, tags);
    r := Join(parts, OrSeparator);
  }

  method BuildSubtagFilter(field: Bytes, tags: seq<Value>) returns (r: Bytes)
    ensures r == SubtagFilter(field, tags)
  {
    if tags == [] {
      return "";
    }
    var parts := AppendScalarClauses([], field, tags);
    assert parts == ScalarClauses(field, tags);
    r := Join(parts, AndSeparator);
  }

  /** A tag filter is empty exactly when no tag is a scalar. */
  lemma TagFiltersEmpty(field: Bytes, tags: seq<Value>)
    ensures (TagFilter(field, tags) == "") <==> (forall i :: 0 <= i < |tags| ==> !IsScalar(tags[i]))
    ensures (SubtagFilter(field, tags) == "") <==> (forall i :: 0 <= i < |tags| ==> !IsScalar(tags[i]))
  {
    ScalarClausesEmpty(field, tags);
    var c := ScalarClauses(field, tags);
    if c != [] {
      assert c[0] != "" by {
        ScalarClausesMembers(field, tags, c[0]);
      }
      JoinNonEmpty(c, OrSeparator);
      JoinNonEmpty(c, AndSeparator);
    }
  }

  // ---------------------------------------------------------------------------
  // Simple queries
  // ---------------------------------------------------------------------------

  predicate IsFieldChar(c: Byte) {
    'A' <= c <= 'Z' || 'a' <= c <= 'z' || '0' <= c <= '9' || c == '_'
  }

  /** `[A-Za-z0-9_]+(\.[A-Za-z0-9_]+)*`: dot-separated non-empty segments. */
  predicate IsDottedPath(s: Bytes) {
    && |s| > 0
    && (forall i :: 0 <= i < |s| ==> IsFieldChar(s[i]) || s[i] == '.')
    && s[0] != '.' && s[|s| - 1] != '.'
    && (forall i :: 0 <= i < |s| - 1 ==> !(s[i] == '.' && s[i + 1] == '.'))
  }

  /** The field pattern, with PCRE's `$` accepting one final newline. */
  predicate MatchesFieldPattern(s: Bytes) {
    IsDottedPath(s) || (|s| > 1 && s[|s| - 1] == '\n' && IsDottedPath(s[..|s| - 1]))
  }

  /** `sanitizeFilterField`. */
  function SanitizeFilterField(field: Bytes): Option<Bytes> {
    var f := Trim(field);
    if f == "" then None
    else if !MatchesFieldPattern(f) then None
    else if f !in FilterableFields then None
    else Some(f)
  }

  /** Every allow-listed field name matches the field pattern. */
  lemma FilterableFieldsArePaths()
    ensures forall f :: f in FilterableFields ==> IsDottedPath(f)
  {
    forall f | f in FilterableFields ensures IsDottedPath(f) {
      assert forall i :: 0 <= i < |f| ==> IsFieldChar(f[i]);
    }
  }

  /**
   * A field is accepted exactly when its trimmed form is on the allow-list;
   * the pattern check never rejects an allow-listed name.
   */
  lemma SanitizeFilterFieldIsAllowList(field: Bytes)
    ensures SanitizeFilterField(field) == if Trim(field) in FilterableFields then Some(Trim(field)) else None
  {
    FilterableFieldsArePaths();
  }

  /** The fields a query can filter on are the ones the index declares filterable. */
  lemma FilterableFieldsMatchIndexSettings()
    ensures FilterableFields == IndexMapping.FilterableAttributes
  {
  }

  /** The scalars among some values. */
  function Scalars(values: seq<Value>): seq<Value> {
    if values == [] then []
    else
      var last := values[|values| - 1];
      Scalars(values[..|values| - 1]) + (if IsScalar(last) then [last] else [])
  }

  /** `normalizeScalarValues`: scalars, and the scalars of nested arrays, one level deep. */
  function FlattenScalars(values: seq<Value>): (r: seq<Value>) {
    if values == [] then []
    else
      var last := values[|values| - 1];
      FlattenScalars(values[..|values| - 1])
      + (if IsScalar(last) then [last]
         else if last.Arr? then Scalars(Values(last.entries))
         else [])
  }

  lemma {:induction false} ScalarsAreScalar(values: seq<Value>)
    ensures forall i :: 0 <= i < |Scalars(values)| ==> IsScalar(Scalars(values)[i])
    decreases |values|
  {
    if values != [] { ScalarsAreScalar(values[..|values| - 1]); }
  }

  /** Every normalized value is a scalar. */
  lemma {:induction false} FlattenScalarsAreScalar(values: seq<Value>)
    ensures forall i :: 0 <= i < |FlattenScalars(values)| ==> IsScalar(FlattenScalars(values)[i])
    decreases |values|
  {
    if values != [] {
      FlattenScalarsAreScalar(values[..|values| - 1]);
      var last := values[|values| - 1];
      if last.Arr? { ScalarsAreScalar(Values(last.entries)); }
    }
  }

  method NormalizeScalarValues(values: seq<Value>) returns (normalized: seq<Value>)
    ensures normalized == FlattenScalars(values)
  {
    normalized := [];
    var i := 0;
    while i < |values|
      invariant 0 <= i <= |values|
      invariant normalized == FlattenScalars(values[..i])
    {
      assert values[..i + 1][..i] == values[..i];
      var value := values[i];
      if IsScalar(value) {
        normalized := normalized + [value];
      } else if value.Arr? {
        var entries := Values(value.entries);
        var j := 0;
        ghost var before := normalized;
        while j < |entries|
          invariant 0 <= j <= |entries|
          invariant normalized == before + Scalars(entries[..j])
        {
          assert entries[..j + 1][..j] == entries[..j];
          if IsScalar(entries[j]) {
            normalized := normalized + [entries[j]];
          }
          j := j + 1;
        }
        assert entries[..j] == entries;
      }
      i := i + 1;
    }
    assert values[..i] == values;
  }

  /** One alternative, or several in parentheses joined with OR. */
  function OrGroup(clauses: seq<Bytes>): Bytes {
    if |clauses| == 1 then clauses[0] else OpenParen + Join(clauses, OrSeparator) + CloseParen
  }

  /** The keyword clauses before `array_unique`: one per value. */
  function KeywordClauses(field: Bytes, values: seq<Value>): seq<Bytes> {
    if values == [] then []
    else KeywordClauses(field, values[..|values| - 1]) + [EqualsClause(field, ToStr(values[|values| - 1]))]
  }

  /** One keyword clause per value, in order. */
  lemma {:induction false} KeywordClausesAt(field: Bytes, values: seq<Value>)
    ensures |KeywordClauses(field, values)| == |values|
    ensures forall i :: 0 <= i < |values| ==> KeywordClauses(field, values)[i] == EqualsClause(field, ToStr(values[i]))
    decreases |values|
  {
    if values != [] {
      var init := values[..|values| - 1];
      KeywordClausesAt(field, init);
      var k, kInit := KeywordClauses(field, values), KeywordClauses(field, init);
      assert k == kInit + [EqualsClause(field, ToStr(values[|values| - 1]))];
      forall i | 0 <= i < |init| ensures k[i] == EqualsClause(field, ToStr(values[i])) {
        assert k[i] == kInit[i] && init[i] == values[i];
      }
    }
  }

  /** `buildKeywordSimpleQuery`. */
  function KeywordQuery(field: Bytes, values: seq<Value>): Bytes {
    var clauses := Unique(KeywordClauses(field, values));
    if clauses == [] then "" else OrGroup(clauses)
  }

  method BuildKeywordSimpleQuery(field: Bytes, values: seq<Value>) returns (r: Bytes)
    ensures r == KeywordQuery(field, values)
  {
    var clauses: seq<Bytes> := [];
    var i := 0;
    while i < |values|
      invariant 0 <= i <= |values|
      invariant clauses == KeywordClauses(field, values[..i])
    {
      assert values[..i + 1][..i] == values[..i];
      clauses := clauses + [EqualsClause(field, ToStr(values[i]))];
      i := i + 1;
    }
    assert values[..i] == values;
    clauses := Unique(clauses);
    if clauses == [] {
      return "";
    }
    if |clauses| == 1 {
      return clauses[0];
    }
    r := OpenParen + Join(clauses, OrSeparator) + CloseParen;
  }

  /** `array_filter($values, 'is_numeric')`. */
  function NumericValues(values: seq<Value>): (r: seq<Value>)
    ensures forall i :: 0 <= i < |r| ==> IsNumeric(r[i])
    ensures forall v :: v in r <==> v in values && IsNumeric(v)
    ensures |r| <= |values|
  {
    if values == [] then []
    else
      var init, last := values[..|values| - 1], values[|values| - 1];
      assert values == init + [last];
      NumericValues(init) + (if IsNumeric(last) then [last] else [])
  }

  /** `field = n`, the value cast to an integer. */
  const EqualsOperator: Bytes := " = "

  /** `(int)` of a value, written in decimal. */
  function IntText(value: Value): Bytes {
    IntToString(ToInt(value))
  }

  function IntEqClause(field: Bytes, value: Value): Bytes {
    field + EqualsOperator + IntText(value)
  }

  function IntEqClauses(field: Bytes, values: seq<Value>): seq<Bytes> {
    if values == [] then []
    else IntEqClauses(field, values[..|values| - 1]) + [IntEqClause(field, values[|values| - 1])]
  }

  /** `buildIntEqualitySimpleQuery` (its caller never passes an empty list). */
  function IntEqQuery(field: Bytes, values: seq<Value>): Bytes {
    OrGroup(Unique(IntEqClauses(field, values)))
  }

  lemma {:induction false} IntEqClausesAt(field: Bytes, values: seq<Value>)
    ensures |IntEqClauses(field, values)| == |values|
    ensures forall i :: 0 <= i < |values| ==> IntEqClauses(field, values)[i] == IntEqClause(field, values[i])
    decreases |values|
  {
    if values != [] {
      var init := values[..|values| - 1];
      IntEqClausesAt(field, init);
      var k, kInit := IntEqClauses(field, values), IntEqClauses(field, init);
      var c := IntEqClause(field, values[|values| - 1]);
      assert k == kInit + [c];
      assert k[|init|] == c;
      forall i | 0 <= i < |init| ensures k[i] == IntEqClause(field, values[i]) {
        assert k[i] == kInit[i];
        assert init[i] == values[i];
      }
    }
  }

  /**
   * The INT_EQ query on the numeric values: one `field = n` clause per
   * distinct numeric value, alone when there is one, else an OR group in
   * parentheses; there is no clause exactly when no value is numeric.
   */
  lemma IntEqQueryShape(field: Bytes, values: seq<Value>)
    ensures var u := Unique(IntEqClauses(field, NumericValues(values)));
      && (u == [] <==> forall i :: 0 <= i < |values| ==> !IsNumeric(values[i]))
      && (forall c :: c in u <==> exists i :: 0 <= i < |values| && IsNumeric(values[i]) && c == IntEqClause(field, values[i]))
      && (|u| == 1 ==> IntEqQuery(field, NumericValues(values)) == u[0])
      && (|u| > 1 ==> IntEqQuery(field, NumericValues(values)) == OpenParen + Join(u, OrSeparator) + CloseParen)
  {
    var n := NumericValues(values);
    var k := IntEqClauses(field, n);
    IntEqClausesAt(field, n);
    UniqueProperties(k);
    forall c ensures c in k <==> exists i :: 0 <= i < |values| && IsNumeric(values[i]) && c == IntEqClause(field, values[i]) {
      if c in k {
        var j :| 0 <= j < |k| && k[j] == c;
        assert n[j] in n;
        var i :| 0 <= i < |values| && values[i] == n[j];
        assert IsNumeric(values[i]) && c == IntEqClause(field, values[i]);
      }
      if exists i :: 0 <= i < |values| && IsNumeric(values[i]) && c == IntEqClause(field, values[i]) {
        var i :| 0 <= i < |values| && IsNumeric(values[i]) && c == IntEqClause(field, values[i]);
        assert values[i] in n;
        var j :| 0 <= j < |n| && n[j] == values[i];
        assert k[j] == c;
      }
    }
    if n != [] {
      assert k[0] in k;
    } else {
      forall i | 0 <= i < |values| ensures !IsNumeric(values[i]) {
        assert values[i] in values;
      }
    }
    if exists i :: 0 <= i < |values| && IsNumeric(values[i]) {
      var i :| 0 <= i < |values| && IsNumeric(values[i]);
      assert values[i] in n;
    }
  }

  method BuildIntEqualitySimpleQuery(field: Bytes, values: seq<Value>) returns (r: Bytes)
    ensures r == IntEqQuery(field, values)
  {
    var clauses: seq<Bytes> := [];
    var i := 0;
    while i < |values|
      invariant 0 <= i <= |values|
      invariant clauses == IntEqClauses(field, values[..i])
    {
      assert values[..i + 1][..i] == values[..i];
      clauses := clauses + [IntEqClause(field, values[i])];
      i := i + 1;
    }
    assert values[..i] == values;
    r := OrGroup(Unique(clauses));
  }

  method ExtractFirstNumericValue(values: seq<Value>) returns (r: Option<int>)
    ensures r.None? <==> forall i :: 0 <= i < |values| ==> !IsNumeric(values[i])
    ensures r.Some? ==> exists i :: 0 <= i < |values| && IsNumeric(values[i]) && r.value == ToInt(values[i])
                                    && forall j :: 0 <= j < i ==> !IsNumeric(values[j])
    ensures r == FirstNumeric(values)
  {
    var i := 0;
    while i < |values|
      invariant 0 <= i <= |values|
      invariant forall j :: 0 <= j < i ==> !IsNumeric(values[j])
    {
      if IsNumeric(values[i]) {
        r := Some(ToInt(values[i]));
        FirstNumericUnique(values, r);
        return;
      }
      i := i + 1;
    }
    r := None;
    FirstNumericUnique(values, r);
  }

  /** `extractFirstNumericValue`, as a function for the specification. */
  function FirstNumeric(values: seq<Value>): (r: Option<int>)
    ensures r.None? <==> forall i :: 0 <= i < |values| ==> !IsNumeric(values[i])
    ensures r.Some? ==> exists i :: 0 <= i < |values| && IsNumeric(values[i]) && r.value == ToInt(values[i])
                                    && forall j :: 0 <= j < i ==> !IsNumeric(values[j])
  {
    if values == [] then None
    else if IsNumeric(values[0]) then Some(ToInt(values[0]))
    else
      var r := FirstNumeric(values[1..]);
      assert forall i :: 1 <= i < |values| ==> values[i] == values[1..][i - 1];
      if r.Some? then
        var i :| 0 <= i < |values[1..]| && IsNumeric(values[1..][i]) && r.value == ToInt(values[1..][i])
                 && forall j :: 0 <= j < i ==> !IsNumeric(values[1..][j]);
        assert forall j :: 0 <= j < i + 1 ==> !IsNumeric(values[j]) by {
          forall j | 0 <= j < i + 1 ensures !IsNumeric(values[j]) {
            if j > 0 { assert values[j] == values[1..][j - 1]; }
          }
        }
        r
      else r
  }

  /** `normalizeBooleanValue` (for bools, ints and strings). */
  function NormalizeBooleanValue(value: Value): Option<bool> {
    match value
    case Bool(b) => Some(b)
    case Int(i) => if i == 1 then Some(true) else if i == 0 then Some(false) else None
    case Str(s) =>
      var n := ToLower(Trim(s));
      if n == "true" || n == "1" || n == "yes" then Some(true)
      else if n == "false" || n == "0" || n == "no" then Some(false)
      else None
    case _ => None
  }

  /** The recognised booleans among the values, in order. */
  function BoolValues(values: seq<Value>): seq<bool> {
    FilterMap(NormalizeBooleanValue, values)
  }

  /** Some value normalizes to `b`. */
  predicate RequestsBool(values: seq<Value>, b: bool) {
    exists i :: 0 <= i < |values| && NormalizeBooleanValue(values[i]) == Some(b)
  }

  lemma BoolValuesMembers(values: seq<Value>, b: bool)
    ensures b in BoolValues(values) <==> RequestsBool(values, b)
  {
    FilterMapMembers(NormalizeBooleanValue, values, b);
  }

  /** `buildBooleanSimpleQuery`: nothing when both truth values are requested. */
  function BooleanQuery(field: Bytes, values: seq<bool>): Bytes {
    var allowTrue := true in values;
    var allowFalse := false in values;
    if allowTrue && allowFalse then "" else field + " = " + (if allowTrue then "true" else "false")
  }

  /** The clause one entry of `getSimpleQueries()` contributes, if any. */
  function SimpleQueryClause(entry: QueryEntry): Option<Bytes> {
    if entry.NotAQuery? then None
    else
      var q := entry.query;
      match SanitizeFilterField(q.field)
      case None => None
      case Some(field) =>
        var values := FlattenScalars(q.values);
        if values == [] then None
        else
          match q.kind
          case Text => NonEmpty(KeywordQuery(field, values))
          case Keyword => NonEmpty(KeywordQuery(field, values))
          case ArrayType => NonEmpty(KeywordQuery(field, values))
          case IntEq =>
            var numeric := NumericValues(values);
            if numeric == [] then None else Some(IntEqQuery(field, numeric))
          case IntGte => Comparison(field, GteOperator, FirstNumeric(values))
          case IntLte => Comparison(field, LteOperator, FirstNumeric(values))
          case IntGt => Comparison(field, GtOperator, FirstNumeric(values))
          case IntLt => Comparison(field, LtOperator, FirstNumeric(values))
          case BoolType =>
            var bools := BoolValues(values);
            if bools == [] then None else NonEmpty(BooleanQuery(field, bools))
          case Regex => None
          case Wildcard => None
          case UnknownType => None
  }

  function NonEmpty(s: Bytes): Option<Bytes> {
    if s == "" then None else Some(s)
  }

  // The operators of the four comparison types.
  const GteOperator: Bytes := " >= "
  const LteOperator: Bytes := " <= "
  const GtOperator: Bytes := " > "
  const LtOperator: Bytes := " < "

  predicate IsComparison(kind: CompareType) {
    kind.IntGte? || kind.IntLte? || kind.IntGt? || kind.IntLt?
  }

  /** The operator a comparison type writes between the field and the number. */
  function ComparisonOperator(kind: CompareType): Bytes
    requires IsComparison(kind)
  {
    match kind
    case IntGte => GteOperator
    case IntLte => LteOperator
    case IntGt => GtOperator
    case IntLt => LtOperator
  }

  function Comparison(field: Bytes, op: Bytes, value: Option<int>): Option<Bytes> {
    if value.None? then None else Some(field + op + IntToString(value.value))
  }

  function SimpleQueryClauses(entries: seq<QueryEntry>): seq<Bytes> {
    if entries == [] then []
    else
      var c := SimpleQueryClause(entries[|entries| - 1]);
      SimpleQueryClauses(entries[..|entries| - 1]) + (if c.Some? then [c.value] else [])
  }

  /** `buildSimpleQueryFilter`: the clauses joined with AND. */
  function SimpleQueryFilter(entries: seq<QueryEntry>): Bytes {
    Join(SimpleQueryClauses(entries), AndSeparator)
  }

  /** The body of `buildSimpleQueryFilter`'s loop for one entry. */
  method BuildSimpleQueryClause(entry: QueryEntry) returns (r: Option<Bytes>)
    ensures r == SimpleQueryClause(entry)
  {
    if entry.NotAQuery? {
      return None;
    }
    var q := entry.query;
    var field := SanitizeFilterField(q.field);
    if field.None? {
      return None;
    }
    var values := NormalizeScalarValues(q.values);
    if values == [] {
      return None;
    }
    var f := field.value;
    match q.kind {
      case Text =>
        var e := BuildKeywordSimpleQuery(f, values);
        r := NonEmpty(e);
      case Keyword =>
        var e := BuildKeywordSimpleQuery(f, values);
        r := NonEmpty(e);
      case ArrayType =>
        var e := BuildKeywordSimpleQuery(f, values);
        r := NonEmpty(e);
      case IntEq =>
        var numeric := NumericValues(values);
        if numeric == [] {
          r := None;
        } else {
          var e := BuildIntEqualitySimpleQuery(f, numeric);
          r := Some(e);
        }
      case IntGte =>
        var v := ExtractFirstNumericValue(values);
        r := Comparison(f, GteOperator, v);
      case IntLte =>
        var v := ExtractFirstNumericValue(values);
        r := Comparison(f, LteOperator, v);
      case IntGt =>
        var v := ExtractFirstNumericValue(values);
        r := Comparison(f, GtOperator, v);
      case IntLt =>
        var v := ExtractFirstNumericValue(values);
        r := Comparison(f, LtOperator, v);
      case BoolType =>
        var bools := CollectBooleanValues(values);
        if bools == [] {
          r := None;
        } else {
          r := NonEmpty(BooleanQuery(f, bools));
        }
      case Regex =>
        r := None;
      case Wildcard =>
        r := None;
      case UnknownType =>
        r := None;
    }
  }

  /** The BOOL case's loop: the recognised booleans, in order. */
  method CollectBooleanValues(values: seq<Value>) returns (bools: seq<bool>)
    ensures bools == BoolValues(values)
  {
    bools := [];
    var i := 0;
    while i < |values|
      invariant 0 <= i <= |values|
      invariant bools == BoolValues(values[..i])
    {
      assert values[..i + 1][..i] == values[..i];
      var b := NormalizeBooleanValue(values[i]);
      if b.Some? {
        bools := bools + [b.value];
      }
      i := i + 1;
    }
    assert values[..i] == values;
  }

  /** The contract of ExtractFirstNumericValue determines its result. */
  lemma FirstNumericUnique(values: seq<Value>, v: Option<int>)
    requires v.None? <==> forall i :: 0 <= i < |values| ==> !IsNumeric(values[i])
    requires v.Some? ==> exists i :: 0 <= i < |values| && IsNumeric(values[i]) && v.value == ToInt(values[i])
                                     && forall j :: 0 <= j < i ==> !IsNumeric(values[j])
    ensures v == FirstNumeric(values)
  {
    var w := FirstNumeric(values);
    if v.Some? {
      var i :| 0 <= i < |values| && IsNumeric(values[i]) && v.value == ToInt(values[i])
               && forall j :: 0 <= j < i ==> !IsNumeric(values[j]);
      var k :| 0 <= k < |values| && IsNumeric(values[k]) && w.value == ToInt(values[k])
               && forall j :: 0 <= j < k ==> !IsNumeric(values[j]);
      assert !(i < k) && !(k < i);
    }
  }

  method BuildSimpleQueryFilter(entries: seq<QueryEntry>) returns (r: Bytes)
    ensures r == SimpleQueryFilter(entries)
  {
    var parts: seq<Bytes> := [];
    var i := 0;
    while i < |entries|
      invariant 0 <= i <= |entries|
      invariant parts == SimpleQueryClauses(entries[..i])
    {
      assert entries[..i + 1][..i] == entries[..i];
      var c := BuildSimpleQueryClause(entries[i]);
      if c.Some? {
        parts := parts + [c.value];
      }
      i := i + 1;
    }
    assert entries[..i] == entries;
    r := Join(parts, AndSeparator);
  }

  // ---------------------------------------------------------------------------
  // Properties of simple queries
  // ---------------------------------------------------------------------------

  /** A query on a field that is not allow-listed (after trimming) contributes nothing. */
  lemma UnknownFieldDropped(q: SimpleQuery)
    requires Trim(q.field) !in FilterableFields
    ensures SimpleQueryClause(Query(q)) == None
  {
    SanitizeFilterFieldIsAllowList(q.field);
  }

  /** REGEX and WILDCARD queries never contribute a clause. */
  lemma RegexAndWildcardIgnored(q: SimpleQuery)
    requires q.kind == Regex || q.kind == Wildcard
    ensures SimpleQueryClause(Query(q)) == None
  {
  }

  /**
   * A keyword query on an allowed field: one equality clause per distinct
   * value, alone when there is one, else an OR group in parentheses.
   */
  lemma KeywordQueryShape(field: Bytes, values: seq<Value>)
    requires values != []
    ensures var u := Unique(KeywordClauses(field, values));
      && u != []
      && (forall c :: c in u <==> exists i :: 0 <= i < |values| && c == EqualsClause(field, ToStr(values[i])))
      && (|u| == 1 ==> KeywordQuery(field, values) == u[0])
      && (|u| > 1 ==> KeywordQuery(field, values) == OpenParen + Join(u, OrSeparator) + CloseParen)
  {
    var k := KeywordClauses(field, values);
    KeywordClausesAt(field, values);
    UniqueProperties(k);
    assert k[0] in k;
    forall c ensures c in k <==> exists i :: 0 <= i < |values| && c == EqualsClause(field, ToStr(values[i])) {
      if c in k {
        var i :| 0 <= i < |k| && k[i] == c;
        assert c == EqualsClause(field, ToStr(values[i]));
      }
    }
  }

  /**
   * Requesting both truth values cancels the BOOL query; otherwise it is
   * `field = true` or `field = false`, following the recognised values.
   */
  lemma BooleanQueryCases(field: Bytes, values: seq<Value>)
    ensures var t, f := RequestsBool(values, true), RequestsBool(values, false);
      && (t && f ==> BooleanQuery(field, BoolValues(values)) == "")
      && (t && !f ==> BooleanQuery(field, BoolValues(values)) == field + " = true")
      && (!t && f ==> BooleanQuery(field, BoolValues(values)) == field + " = false")
  {
    BoolValuesMembers(values, true);
    BoolValuesMembers(values, false);
  }

  /** The decimal form of an int has no byte that `trim` or `strtolower` changes. */
  lemma IntStringIsNormalized(i: int)
    ensures Trim(IntToString(i)) == IntToString(i)
    ensures ToLower(IntToString(i)) == IntToString(i)
  {
    var s := IntToString(i);
    var d := NatToString(if i < 0 then -i else i);
    assert forall k :: 0 <= k < |s| ==> s[k] == '-' || IsDigit(s[k]) by {
      forall k | 0 <= k < |s| ensures s[k] == '-' || IsDigit(s[k]) {
        if i < 0 && k > 0 { assert s[k] == d[k - 1]; }
      }
    }
    assert s[|s| - 1] == d[|d| - 1];
    assert TrimLeft(s) == s;
    assert ToLower(s) == s;
  }

  /** The decimal form of an int is "1" or "0" exactly for 1 and 0, and no word. */
  lemma IntStringBooleanWords(i: int)
    ensures IntToString(i) == "1" <==> i == 1
    ensures IntToString(i) == "0" <==> i == 0
    ensures IntToString(i) !in {"true", "yes", "false", "no"}
  {
    var s := IntToString(i);
    IntToStringRoundTrip(i);
    assert s[0] == '-' || IsDigit(s[0]) by {
      if i >= 0 { assert IsDigit(NatToString(i)[0]); }
    }
    assert StringToInt("1") == 1 by { assert "1"[..1] == "1"; }
    assert StringToInt("0") == 0 by { assert "0"[..1] == "0"; }
  }

  /**
   * A BOOL value sent as the decimal string `(string)` makes of an int is
   * recognised as the int itself would be: "1" and "0" are true and false,
   * and any other decimal string is dropped like any other int.
   */
  lemma IntStringNormalizesAsInt(i: int)
    ensures NormalizeBooleanValue(Str(ToStr(Int(i)))) == NormalizeBooleanValue(Int(i))
  {
    IntStringIsNormalized(i);
    IntStringBooleanWords(i);
    NormalizedStringValue(IntToString(i));
  }

  /** How a string that `trim` and `strtolower` leave alone is recognised. */
  lemma NormalizedStringValue(s: Bytes)
    requires ToLower(Trim(s)) == s
    ensures s !in {"true", "yes", "false", "no", "1", "0"} ==> NormalizeBooleanValue(Str(s)) == None
    ensures s == "1" ==> NormalizeBooleanValue(Str(s)) == Some(true)
    ensures s == "0" ==> NormalizeBooleanValue(Str(s)) == Some(false)
  {
  }

  /**
   * The string form of a bool is not always recognised as the bool: true
   * becomes "1", which is true again, but false becomes "", which is dropped.
   */
  lemma BoolStringForms()
    ensures NormalizeBooleanValue(Str(ToStr(Bool(true)))) == Some(true)
    ensures NormalizeBooleanValue(Bool(false)) == Some(false)
    ensures NormalizeBooleanValue(Str(ToStr(Bool(false)))) == None
  {
    assert Trim("") == "";
    assert TrimLeft("1") == "1";
    assert ToLower("1") == "1";
  }

  lemma TrueFalseFlatten()
    ensures FlattenScalars([Bool(true), Bool(false)]) == [Bool(true), Bool(false)]
  {
    var vs := [Bool(true), Bool(false)];
    assert vs[..1] == [Bool(true)];
    assert vs[..1][..0] == [];
  }

  lemma TrueFalseBooleans()
    ensures BoolValues([Bool(true), Bool(false)]) == [true, false]
  {
    FilterMapSnoc(NormalizeBooleanValue, [], Bool(true));
    assert BoolValues([Bool(true)]) == [true];
    FilterMapSnoc(NormalizeBooleanValue, [Bool(true)], Bool(false));
    assert [Bool(true)] + [Bool(false)] == [Bool(true), Bool(false)];
  }

  /** The BOOL query for the values [true, false] emits no clause. */
  lemma ContradictoryBoolDropped(field: Bytes)
    requires Trim(field) in FilterableFields
    ensures SimpleQueryClause(Query(SimpleQuery(field, BoolType, [Bool(true), Bool(false)]))) == None
  {
    SanitizeFilterFieldIsAllowList(field);
    TrueFalseFlatten();
    TrueFalseBooleans();
  }

  /** GTE/LTE/GT/LT use the first numeric value only, with their own operator. */
  lemma ComparisonUsesFirstNumeric(q: SimpleQuery, i: int)
    requires Trim(q.field) in FilterableFields
    requires IsComparison(q.kind)
    requires 0 <= i < |FlattenScalars(q.values)| && IsNumeric(FlattenScalars(q.values)[i])
    requires forall j :: 0 <= j < i ==> !IsNumeric(FlattenScalars(q.values)[j])
    ensures SimpleQueryClause(Query(q))
            == Some(Trim(q.field) + ComparisonOperator(q.kind) + IntToString(ToInt(FlattenScalars(q.values)[i])))
  {
    var field := Trim(q.field);
    SanitizeFilterFieldIsAllowList(q.field);
    assert SanitizeFilterField(q.field) == Some(field);
    var values := FlattenScalars(q.values);
    assert SimpleQueryClause(Query(q)) == Comparison(field, ComparisonOperator(q.kind), FirstNumeric(values));
    FirstNumericUnique(values, Some(ToInt(values[i])));
  }

  // ---------------------------------------------------------------------------
  // The filter expression
  // ---------------------------------------------------------------------------

  function ProviderClause(providerId: Bytes): Bytes {
    ProviderClausePrefix + EscapeFilterValue(providerId) + Quote
  }

  function SinceClause(since: int): Bytes {
    SincePrefix + IntToString(since)
  }

  function Optional(s: Bytes): seq<Bytes> {
    if s == "" then [] else [s]
  }

  function Parenthesized(s: Bytes): seq<Bytes> {
    if s == "" then [] else [OpenParen + s + CloseParen]
  }

  /** The clauses of `buildFilterExpression`, in the order they are appended. */
  function FilterClauses(request: SearchRequest, access: ViewerAccess, providerId: Bytes): seq<Bytes> {
    [ProviderClause(providerId)]
    + Parenthesized(AccessFilter(access))
    + OptionalClauses(request)
    + SinceClauses(request)
  }

  /** The meta-tag, sub-tag and simple-query clauses, each only when not empty. */
  function OptionalClauses(request: SearchRequest): seq<Bytes> {
    Parenthesized(TagFilter(MetaTagsKey, request.metaTags))
    + Optional(SubtagFilter(SubTagsKey, request.subTags))
    + Optional(SimpleQueryFilter(request.simpleQueries))
  }

  /** The time window, only when `since` is positive. */
  function SinceClauses(request: SearchRequest): seq<Bytes> {
    var since := ToInt(request.since);
    if since > 0 then [SinceClause(since)] else []
  }

  function FilterExpression(request: SearchRequest, access: ViewerAccess, providerId: Bytes): Bytes {
    Join(FilterClauses(request, access, providerId), AndSeparator)
  }

  /** `if ($f !== '') $filters[] = '(' . $f . ')';` */
  method AppendParenthesized(filters: seq<Bytes>, f: Bytes) returns (r: seq<Bytes>)
    ensures r == filters + Parenthesized(f)
  {
    r := filters;
    if f != "" {
      r := r + [OpenParen + f + CloseParen];
    }
  }

  /** `if ($f !== '') $filters[] = $f;` */
  method AppendOptional(filters: seq<Bytes>, f: Bytes) returns (r: seq<Bytes>)
    ensures r == filters + Optional(f)
  {
    r := filters;
    if f != "" {
      r := r + [f];
    }
  }

  /** `buildFilterExpression`. */
  method BuildFilterExpression(request: SearchRequest, access: ViewerAccess, providerId: Bytes) returns (r: Bytes)
    ensures r == FilterExpression(request, access, providerId)
  {
    var filters: seq<Bytes> := [ProviderClause(providerId)];
    var accessFilter := BuildAccessFilter(access);
    filters := AppendParenthesized(filters, accessFilter);
    ghost var accessPart := filters;
    var metaFilter := BuildTagFilter(MetaTagsKey, request.metaTags);
    filters := AppendParenthesized(filters, metaFilter);
    var subFilter := BuildSubtagFilter(SubTagsKey, request.subTags);
    filters := AppendOptional(filters, subFilter);
    var simpleFilter := BuildSimpleQueryFilter(request.simpleQueries);
    filters := AppendOptional(filters, simpleFilter);
    ghost var simplePart := filters;
    var since := ToInt(request.since);
    if since > 0 {
      filters := filters + [SinceClause(since)];
    }
    assert accessPart == [ProviderClause(providerId)] + Parenthesized(AccessFilter(access));
    assert simplePart == accessPart + OptionalClauses(request);
    assert filters == simplePart + SinceClauses(request);
    r := Join(filters, AndSeparator);
  }

  /**
   * Clause order: the provider clause first, the parenthesised access clause
   * (never empty) second, then the optional meta, sub-tag and simple-query
   * clauses, and the time window last exactly when `since` is positive.
   */
  lemma FilterClauseOrder(request: SearchRequest, access: ViewerAccess, providerId: Bytes)
    ensures var c := FilterClauses(request, access, providerId);
      var since := ToInt(request.since);
      var optional := OptionalClauses(request);
      && |c| >= 2
      && c[0] == ProviderClause(providerId)
      && c[1] == OpenParen + AccessFilter(access) + CloseParen
      && c[2..] == optional + (if since > 0 then [SinceClause(since)] else [])
      && (since > 0 <==> |c| == 3 + |optional|)
      && (since > 0 ==> c[|c| - 1] == SinceClause(since))
  {
    AccessFilterNonEmpty(access);
    ClauseLayout(ProviderClause(providerId), OpenParen + AccessFilter(access) + CloseParen, OptionalClauses(request), SinceClauses(request));
  }

  lemma ClauseLayout(provider: Bytes, access: Bytes, optional: seq<Bytes>, tail: seq<Bytes>)
    ensures var c := [provider] + [access] + optional + tail;
      && |c| == 2 + |optional| + |tail|
      && c[0] == provider && c[1] == access && c[2..] == optional + tail
      && (tail != [] ==> c[|c| - 1] == tail[|tail| - 1])
  {
    var c := [provider] + [access] + optional + tail;
    assert c == [provider, access] + (optional + tail);
  }

  /** The filter starts with the provider clause, then the access clause. */
  lemma FilterStartsWithProviderAndAccess(request: SearchRequest, access: ViewerAccess, providerId: Bytes)
    ensures StartsWith(FilterExpression(request, access, providerId),
                       ProviderClause(providerId) + AndSeparator + (OpenParen + AccessFilter(access) + CloseParen))
  {
    var c := FilterClauses(request, access, providerId);
    var p, a := ProviderClause(providerId), OpenParen + AccessFilter(access) + CloseParen;
    AccessFilterNonEmpty(access);
    ClauseLayout(p, a, OptionalClauses(request), SinceClauses(request));
    JoinStartsWithFirstTwo(c, AndSeparator);
  }

  lemma JoinStartsWithFirstTwo(xs: seq<Bytes>, sep: Bytes)
    requires |xs| >= 2
    ensures StartsWith(Join(xs, sep), xs[0] + sep + xs[1])
  {
    var head := xs[0] + sep;
    var tail := Join(xs[1..], sep);
    JoinNonEmpty(xs[1..], sep);
    assert Join(xs, sep) == head + tail;
    assert tail[..|xs[1]|] == xs[1];
    assert (head + tail)[..|head| + |xs[1]|] == head + xs[1];
  }

  /** Two scalar values give their two clauses, in order. */
  lemma ScalarClausesOfTwo(field: Bytes, a: Value, b: Value)
    requires IsScalar(a) && IsScalar(b)
    ensures ScalarClauses(field, [a, b]) == [EqualsClause(field, ToStr(a)), EqualsClause(field, ToStr(b))]
  {
    var vs := [a, b];
    assert vs[..1] == [a];
    assert vs[..1][..0] == [];
    assert ScalarClauses(field, [a]) == [EqualsClause(field, ToStr(a))];
    assert ScalarClauses(field, vs) == ScalarClauses(field, [a]) + [EqualsClause(field, ToStr(b))];
  }

  lemma JoinTwo(x: Bytes, y: Bytes, sep: Bytes)
    ensures Join([x, y], sep) == x + sep + y
  {
    assert [x, y][1..] == [y];
  }

  /** A clause on a value without quotes or backslashes shows the value verbatim. */
  lemma PlainEqualsClause(field: Bytes, value: Bytes)
    requires '\\' !in value && '\'' !in value
    ensures EqualsClause(field, value) == field + " = '" + value + "'"
  {
    EscapePlain(value);
  }

  /**
   * Two tags give two equality clauses: OR-ed for meta tags, AND-ed for sub
   * tags.
   */
  lemma TwoTagFilters(field: Bytes, a: Value, b: Value)
    requires IsScalar(a) && IsScalar(b)
    ensures TagFilter(field, [a, b]) == EqualsClause(field, ToStr(a)) + OrSeparator + EqualsClause(field, ToStr(b))
    ensures SubtagFilter(field, [a, b]) == EqualsClause(field, ToStr(a)) + AndSeparator + EqualsClause(field, ToStr(b))
  {
    ScalarClausesOfTwo(field, a, b);
    JoinTwo(EqualsClause(field, ToStr(a)), EqualsClause(field, ToStr(b)), OrSeparator);
    JoinTwo(EqualsClause(field, ToStr(a)), EqualsClause(field, ToStr(b)), AndSeparator);
  }

  /** Escaping leaves a value without backslashes and quotes unchanged. */
  lemma {:induction false} EscapePlain(value: Bytes)
    requires '\\' !in value && '\'' !in value
    ensures EscapeFilterValue(value) == value
    decreases |value|
  {
    EscapeIsBytewise(value);
    if value != [] {
      EscapePlain(value[1..]);
      EscapeIsBytewise(value[1..]);
      assert value == [value[0]] + value[1..];
    }
  }

  // ---------------------------------------------------------------------------
  // Pagination, highlighting and the whole query
  // ---------------------------------------------------------------------------

  function Max(a: int, b: int): int {
    if a >= b then a else b
  }

  /** `limit` and `offset` for a page number and a requested size. */
  function Pagination(page: int, size: int): (int, int) {
    var p := Max(1, page);
    var limit := if size > 0 then size else DefaultPageSize;
    (limit, (p - 1) * limit)
  }

  /**
   * The limit is the requested size, or 20 when that is not positive; page
   * numbers below 1 count as page 1, which starts at offset 0; and each page
   * starts where the previous one ends, so pages neither overlap nor leave gaps.
   */
  lemma PaginationBounds(page: int, size: int)
    ensures var (limit, offset) := Pagination(page, size);
      && limit > 0
      && (size > 0 ==> limit == size)
      && (size <= 0 ==> limit == DefaultPageSize)
      && offset >= 0
      && (page <= 1 ==> offset == 0)
      && (page >= 1 ==> Pagination(page + 1, size) == (limit, offset + limit))
  {
    var (limit, offset) := Pagination(page, size);
    var skipped := Max(1, page) - 1;
    assert offset == skipped * limit;
    assert skipped >= 0 && limit > 0;
    assert offset >= 0 by {
      NonNegativeProduct(skipped, limit);
    }
    if page >= 1 {
      assert (skipped + 1) * limit == skipped * limit + limit;
    }
  }

  lemma NonNegativeProduct(a: int, b: int)
    requires a >= 0 && b >= 0
    ensures a * b >= 0
  {
  }

  const BaseHighlightAttributes: seq<Bytes> := [ContentKey, TitleKey]

  /** The attribute a requested part adds: `parts.<name>` for a non-blank scalar. */
  function PartAttribute(part: Value): Option<Bytes> {
    var name := Trim(ToStr(part));
    if IsScalar(part) && name != "" then Some(PartsPrefix + name) else None
  }

  function PartAttributes(parts: seq<Value>): seq<Bytes> {
    FilterMap(PartAttribute, parts)
  }

  function HighlightAttributes(parts: seq<Value>): seq<Bytes> {
    Unique(BaseHighlightAttributes + PartAttributes(parts))
  }

  /** `getHighlightAttributes`. */
  method GetHighlightAttributes(parts: seq<Value>) returns (attrs: seq<Bytes>)
    ensures attrs == HighlightAttributes(parts)
  {
    attrs := [ContentKey, TitleKey];
    var i := 0;
    while i < |parts|
      invariant 0 <= i <= |parts|
      invariant attrs == BaseHighlightAttributes + PartAttributes(parts[..i])
    {
      assert parts[..i + 1] == parts[..i] + [parts[i]];
      FilterMapSnoc(PartAttribute, parts[..i], parts[i]);
      var part := parts[i];
      if IsScalar(part) {
        var name := Trim(ToStr(part));
        if name != "" {
          attrs := attrs + [PartsPrefix + name];
        }
      }
      i := i + 1;
    }
    assert parts[..i] == parts;
    attrs := Unique(attrs);
  }

  lemma PartAttributesMembers(parts: seq<Value>, a: Bytes)
    ensures a in PartAttributes(parts) <==> exists i :: 0 <= i < |parts| && PartAttribute(parts[i]) == Some(a)
  {
    FilterMapMembers(PartAttribute, parts, a);
  }

  /**
   * The highlight attributes start with "content" and "title", then hold
   * "parts." + the trimmed name of every scalar part whose name is not blank,
   * each exactly once.
   */
  lemma HighlightAttributesShape(parts: seq<Value>)
    ensures var h := HighlightAttributes(parts);
      && |h| >= 2 && h[..2] == BaseHighlightAttributes
      && Distinct(h)
      && forall a :: a in h <==>
           a in BaseHighlightAttributes || exists i :: 0 <= i < |parts| && PartAttribute(parts[i]) == Some(a)
  {
    var base := BaseHighlightAttributes;
    assert base[0][0] != base[1][0];
    UniqueKeepsDistinctPrefix(base, PartAttributes(parts));
    UniqueProperties(base + PartAttributes(parts));
    forall a ensures a in PartAttributes(parts) <==> exists i :: 0 <= i < |parts| && PartAttribute(parts[i]) == Some(a) {
      PartAttributesMembers(parts, a);
    }
  }

  /** The query `generateSearchQuery` builds. */
  function SearchQueryFor(request: SearchRequest, access: ViewerAccess, providerId: Bytes): SearchQuery {
    var (limit, offset) := Pagination(request.page, request.size);
    SearchQuery(
      request.search,
      FilterExpression(request, access, providerId),
      limit, offset,
      HighlightAttributes(request.parts),
      "", "", true)
  }

  /** `generateSearchQuery`. */
  method GenerateSearchQuery(request: SearchRequest, access: ViewerAccess, providerId: Bytes) returns (q: SearchQuery)
    ensures q == SearchQueryFor(request, access, providerId)
  {
    var page := Max(1, request.page);
    var size := if request.size > 0 then request.size else DefaultPageSize;
    var filter := BuildFilterExpression(request, access, providerId);
    var attrs := GetHighlightAttributes(request.parts);
    q := SearchQuery(request.search, filter, size, (page - 1) * size, attrs, "", "", true);
  }

  /**
   * The query carries the search text unchanged, a filter opening with the
   * provider and access clauses, a positive limit and a non-negative offset,
   * highlight attributes opening with "content" and "title", empty highlight
   * tags, and asks for match positions.
   */
  lemma SearchQueryShape(request: SearchRequest, access: ViewerAccess, providerId: Bytes)
    ensures var q := SearchQueryFor(request, access, providerId);
      && q.query == request.search
      && StartsWith(q.filter, ProviderClause(providerId) + AndSeparator + (OpenParen + AccessFilter(access) + CloseParen))
      && q.limit > 0 && q.offset >= 0
      && (request.size > 0 ==> q.limit == request.size)
      && (request.page <= 1 ==> q.offset == 0)
      && |q.attributesToHighlight| >= 2 && q.attributesToHighlight[..2] == BaseHighlightAttributes
      && q.highlightPreTag == "" && q.highlightPostTag == ""
      && q.showMatchesPosition
  {
    FilterStartsWithProviderAndAccess(request, access, providerId);
    PaginationBounds(request.page, request.size);
    HighlightAttributesShape(request.parts);
  }

  lemma EncodedIdDecodes(providerId: Bytes, documentId: Bytes)
    ensures IndexMapping.RoundTrips(providerId, documentId)
            ==> IndexMapping.DecodeDocumentId(IndexMapping.EncodeDocumentId(providerId, documentId)) == (providerId, documentId)
  {
    if IndexMapping.RoundTrips(providerId, documentId) {
      IndexMapping.EncodeRoundTrip(providerId, documentId);
    }
  }

  /**
   * `getDocumentQuery`: the engine id of a document.  It decodes back to the
   * document whenever the codec round-trips for the pair.
   */
  function DocumentQuery(providerId: Bytes, documentId: Bytes): (r: Bytes)
    ensures IndexMapping.RoundTrips(providerId, documentId) ==> IndexMapping.DecodeDocumentId(r) == (providerId, documentId)
  {
    EncodedIdDecodes(providerId, documentId);
    IndexMapping.EncodeDocumentId(providerId, documentId)
  }
}
