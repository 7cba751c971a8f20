# A verified model of the Meilisearch back end for Nextcloud full-text search

The plugin connects Nextcloud's full-text search framework to a Meilisearch
engine. This project models its translation layer in Dafny and proves
properties of that model. The layer has four parts:

- **Document identity and index body** (`IndexMapping`, in
  `index_mapping.dfy`).
  - A provider id and a document id become one engine document id. A
    *legacy* scheme joins them with `:` and then replaces every `:` by
    `_-_`. An *escaped* scheme writes `h_`, the hex of the provider id, `_`,
    and the hex of the document id.
  - Decoding tries the escaped scheme first and falls back to the legacy
    one.
  - Removing a document deletes both encodings of its id.
  - The body sent to the engine is the document's info fields merged with
    the body literal. Base64 content is decoded, or emptied when decoding
    fails.
- **Filter and query compiler** (`SearchMapping`, in `search_mapping.dfy`).
  A search request becomes three things:
  - a filter string, made of the provider, access, meta-tag, sub-tag,
    typed simple-query and time-window clauses joined with AND;
  - pagination;
  - the attributes to highlight.
  Every user string goes through one escaping function.
- **Result mapper** (`SearchService`, in `search_service.dfy`).
  - It records the response metadata and maps each hit to a document with
    deduplicated excerpts.
  - For `getDocument`, it tries candidate ids under a 404-continue policy.
    It then rebuilds the stored document with typed info fields.
- **Platform** (`Platform`, in `platform.dfy`). The platform object holds a
  client and a runner.
  - Indexing a document is a small state machine: a first attempt; a
    temporary failure when the engine cannot be reached; otherwise a
    recorded error and one retry without content. The runner is told
    SUCCESS, WARNING or FAIL.
  - `deleteIndexes` reports one result per index.
  - `getConfiguration` masks the API key.
  - Runner notifications are skipped when no runner is set.

Two modules support these parts:

- `Php` (`php.dfy`) models the PHP values and built-ins the code relies on:
  - strings are byte sequences, and arrays are ordered key/value lists;
  - `str_replace`, `implode`, `array_unique` (first occurrence kept),
    `array_merge`, `trim`, `strtolower` and `is_scalar`;
  - `is_numeric` and `(int)` on digit strings;
  - PHP's `empty`;
  - regex character classes, with PCRE's `$` also matching before a final
    newline.
- `Host` (`host.dfy`) holds the host's document and access records, the
  client's error kinds, the stored field names, and the configured index
  name.

The engine, the JSON encoder, the base64 decoder and the UTF-8 check are
parameters. The platform's client is an object that answers from fixed
oracle functions and records each request. The runner is an object that
records each notification. Operations with loops are methods, each proved
equal to a specification function. The properties themselves are proved
as lemmas about those functions.

The id codec does not round-trip every pair. Under the legacy scheme,
("a:b", "c") and ("a", "b:c") get the same id. So
`IndexMapping.LegacyRoundTrip` and `IndexMapping.EncodeRoundTrip` are stated
under a side condition. `IndexMapping.LegacyCollision` and
`IndexMapping.LegacySeparatorOverlap` show pairs that fail it.

## Model

| member | source | states |
|---|---|---|
| IndexMapping.Bin2Hex | lib/Service/IndexMappingService.php:71 | `bin2hex` gives two lowercase hex digits per byte |
| IndexMapping.Hex2BinOfBin2Hex | lib/Service/IndexMappingService.php:105-106 | `hex2bin` undoes `bin2hex` on every byte string |
| IndexMapping.Hex2BinOnlyHexDigits | lib/Service/IndexMappingService.php:105-107 | a string `hex2bin` accepts holds hex digits only, so a trailing newline makes it fail |
| IndexMapping.Bin2HexOfHex2Bin | lib/Service/IndexMappingService.php:105-106 | lowercase hex that `hex2bin` decodes is exactly `bin2hex` of the result |
| IndexMapping.FirstIndex | lib/Service/IndexMappingService.php:94 | `strpos` of one byte: the first position holding it, or none when it does not occur |
| IndexMapping.EscapedIdShape | lib/Service/IndexMappingService.php:70-72 | an escaped id is `h_`, 2·\|p\| lowercase hex digits, `_`, then 2·\|d\| lowercase hex digits; it uses only engine-legal characters and never `-` |
| IndexMapping.EscapedRoundTrip | lib/Service/IndexMappingService.php:45-112 | the escaped scheme round-trips for every pair of byte strings, empty ones included, through both the escaped decoder and `decodeDocumentId` |
| IndexMapping.EscapedDecodeCanonical | lib/Service/IndexMappingService.php:88-112 | whatever the escaped decoder accepts re-encodes to the id it was given, so it accepts exactly the escaped encodings |
| IndexMapping.HexDataTrailingNewline | lib/Service/IndexMappingService.php:101-124 | `isHexData` accepts `"abc\n"` because of PCRE's `$`; `hex2bin` then fails and the escaped decoder returns null for `"h_abc\n_"` |
| IndexMapping.LegacyEncodingSplits | lib/Service/IndexMappingService.php:63-65 | a legacy id is the provider id and the document id, each with `:` replaced by `_-_`, joined by `_-_` |
| IndexMapping.LegacyEncodingPlain | lib/Service/IndexMappingService.php:63-65 | without `:` in either id, the legacy id is p + `_-_` + d |
| IndexMapping.LegacyDiffersFromEscaped | lib/Service/IndexMappingService.php:63-72 | for the same pair the legacy id and the escaped id always differ |
| IndexMapping.EncodeChoosesEscapedExactly | lib/Service/IndexMappingService.php:33-83 | `encodeDocumentId` gives the escaped id if and only if either id contains `_-_` or fails `^[A-Za-z0-9_:-]+$`; otherwise it gives the legacy id |
| IndexMapping.EmptyIdsAreEscaped | lib/Service/IndexMappingService.php:74-83 | an empty id always forces the escaped scheme; ("", "") encodes to `h__` and decodes back |
| IndexMapping.EscapedRejectsLegacyShape | lib/Service/IndexMappingService.php:88-104 | p + `_-_` + d, with no `_` in p, is never read as an escaped id |
| IndexMapping.LegacyDecodeShape | lib/Service/IndexMappingService.php:51-57 | the legacy decoder splits p + `_-_` + d back into (p, d) when p has no `_` or `:` and d has no `_-_` |
| IndexMapping.LegacyDecodeSplit | lib/Service/IndexMappingService.php:51-57 | the legacy decoder splits at the first `:` that its replacement produces |
| IndexMapping.LegacyRoundTrip | lib/Service/IndexMappingService.php:45-65 | the legacy scheme round-trips when the provider id has neither `_` nor `:`, and the document id has neither `:` nor `_-_` |
| IndexMapping.EncodeRoundTrip | lib/Service/IndexMappingService.php:33-58 | `decodeDocumentId(encodeDocumentId(p, d)) == (p, d)` whenever the escaped scheme is chosen, or p has neither `_` nor `:` and d has no `:` |
| IndexMapping.CollisionPairsAreLegacy | lib/Service/IndexMappingService.php:74-83 | ("a:b", "c") and ("a", "b:c") both take the legacy scheme |
| IndexMapping.LegacyCollision | lib/Service/IndexMappingService.php:51-65 | ("a:b", "c") and ("a", "b:c") share the id `a_-_b_-_c`, which decodes as ("a", "b:c") |
| IndexMapping.LegacySeparatorOverlap | lib/Service/IndexMappingService.php:51-65 | ("a_-", "b") takes the legacy scheme, encodes to `a_-_-_b` and comes back as ("a", "-_b") |
| IndexMapping.LegacyIdMayContainNewline | lib/Service/IndexMappingService.php:74-83 | a provider id with a trailing newline passes the legacy pattern, and the id it produces is not engine-legal |
| IndexMapping.RemoveCandidatesShape | lib/Service/IndexMappingService.php:212-215 | the removal candidates are the current id first and the legacy id last: one candidate exactly when the legacy scheme was chosen, two exactly when the escaped one was |
| IndexMapping.IndexDocumentRemove | lib/Service/IndexMappingService.php:210-223 | an empty index name is a configuration error and nothing is deleted; otherwise every candidate is deleted in order, and each API error is swallowed; the first other error is raised and stops the loop |
| IndexMapping.CanonicalBody | lib/Service/IndexMappingService.php:235-259 | the body literal has the fifteen fields in their written order, content last |
| IndexMapping.CanonicalKeysDistinct | lib/Service/IndexMappingService.php:235-259 | the body literal sets each field once |
| IndexMapping.IndexBodyFields | lib/Service/IndexMappingService.php:261 | in the merged body, the document's own fields win over same-named info fields, and any other info field keeps its last value |
| IndexMapping.IndexBodyContent | lib/Service/IndexMappingService.php:252-259 | content is kept unless it is non-empty and flagged base64; then it becomes the decoded bytes when decoding succeeds and yields UTF-8, and `''` otherwise |
| IndexMapping.IndexPayload | lib/Service/IndexMappingService.php:174-175 | the body sent by `indexDocumentNew`/`indexDocumentUpdate` has `id` set to the encoded identity, and every other key as in the body |
| IndexMapping.PayloadGet | lib/Service/IndexMappingService.php:171-200 | every field of the body literal is stored under its own key in the payload |
| IndexMapping.PayloadStoresBody | lib/Service/IndexMappingService.php:171-200 | the payload stores all fifteen fields of the body literal, content as indexed |
| SearchMapping.EscapeIsBytewise | lib/Service/SearchMappingService.php:346-348 | the two sequential replacements of `escapeFilterValue` amount to escaping `\` and `'` byte by byte |
| SearchMapping.EscapeLength | lib/Service/SearchMappingService.php:346-348 | the escaped length is the input length plus the number of backslashes plus the number of quotes |
| SearchMapping.EscapePlain | lib/Service/SearchMappingService.php:346-348 | a value with no backslash and no quote is left unchanged |
| SearchMapping.EscapedValueReadsBack | lib/Service/SearchMappingService.php:346-348 | injection safety: after the opening quote, a backslash-escaping reader recovers exactly the original value and stops at the plugin's closing quote, whatever the value holds |
| SearchMapping.EqualsClauseReadsBack | lib/Service/SearchMappingService.php:159 | a `field = '…'` clause parses back to the field, the value and whatever followed the clause |
| SearchMapping.ScalarClausesMembers | lib/Service/SearchMappingService.php:155-174 | a clause comes from a group, circle or link list exactly when it is the clause of one of the list's scalar entries |
| SearchMapping.ScalarClausesEmpty | lib/Service/SearchMappingService.php:194-199 | a list yields no clause exactly when none of its entries is scalar |
| SearchMapping.AppendScalarClauses | lib/Service/SearchMappingService.php:155-174 | the foreach loop appends one escaped equality clause per scalar entry, in order |
| SearchMapping.BuildAccessFilter | lib/Service/SearchMappingService.php:145-177 | `buildAccessFilter` returns the OR-join of the deduplicated viewer, public, group, circle and link clauses |
| SearchMapping.ViewerClausesDistinct | lib/Service/SearchMappingService.php:147-152 | a non-blank viewer gives two distinct clauses, its owner and its user clause |
| SearchMapping.AccessClausesShape | lib/Service/SearchMappingService.php:145-177 | the access clauses are distinct and hold `users = '__all'`; they start with the owner and user clauses for a non-blank trimmed viewer, and with `users = '__all'` for a blank one |
| SearchMapping.AccessClausesMembers | lib/Service/SearchMappingService.php:145-177 | a clause is in the access filter if and only if it is a viewer clause, `users = '__all'` or the clause of a scalar group, circle or link |
| SearchMapping.AccessFilterNonEmpty | lib/Service/SearchMappingService.php:153 | the access filter is never empty |
| SearchMapping.BuildTagFilter | lib/Service/SearchMappingService.php:188-202 | `buildTagFilter` gives `''` for no tags, and otherwise the OR-join of the scalar tags' clauses |
| SearchMapping.BuildSubtagFilter | lib/Service/SearchMappingService.php:213-227 | `buildSubtagFilter` gives `''` for no tags, and otherwise the AND-join of the scalar tags' clauses |
| SearchMapping.TagFiltersEmpty | lib/Service/SearchMappingService.php:188-227 | either tag filter is empty if and only if no tag is scalar |
| SearchMapping.TwoTagFilters | lib/Service/SearchMappingService.php:188-227 | two scalar tags give their two clauses joined by ` OR ` for meta tags and by ` AND ` for sub tags |
| SearchMapping.FilterableFieldsArePaths | lib/Service/SearchMappingService.php:21-33 | every allow-listed field name matches the field pattern |
| SearchMapping.SanitizeFilterFieldIsAllowList | lib/Service/SearchMappingService.php:350-365 | a field is accepted, trimmed, if and only if its trimmed form is on the allow-list |
| SearchMapping.FilterableFieldsMatchIndexSettings | lib/Service/SearchMappingService.php:21-33 | the fields a query may filter on are exactly the attributes the index declares filterable |
| SearchMapping.FlattenScalarsAreScalar | lib/Service/SearchMappingService.php:367-387 | every normalized value is a scalar |
| SearchMapping.NormalizeScalarValues | lib/Service/SearchMappingService.php:367-387 | the nested loop keeps the scalars, and the scalars of arrays one level deep, in order |
| SearchMapping.KeywordClausesAt | lib/Service/SearchMappingService.php:391-393 | one escaped equality clause per value, in value order |
| SearchMapping.BuildKeywordSimpleQuery | lib/Service/SearchMappingService.php:389-405 | `buildKeywordSimpleQuery` returns the keyword query of the values |
| SearchMapping.KeywordQueryShape | lib/Service/SearchMappingService.php:389-405 | for values that are not empty, the deduplicated clauses are exactly the values' clauses; one clause stands alone, several form a parenthesised OR group |
| SearchMapping.NumericValues | lib/Service/SearchMappingService.php:263 | `array_filter(…, 'is_numeric')` keeps a value if and only if it is one of the values and numeric, and never adds any |
| SearchMapping.IntEqQueryShape | lib/Service/SearchMappingService.php:262-266 | the INT_EQ clauses are exactly `field = (int)v` for the numeric values v; there is none iff no value is numeric; one stands alone, several form a parenthesised OR |
| SearchMapping.BuildIntEqualitySimpleQuery | lib/Service/SearchMappingService.php:407-419 | `buildIntEqualitySimpleQuery` returns one `field = n` clause, or the parenthesised OR of the distinct ones |
| SearchMapping.FirstNumeric | lib/Service/SearchMappingService.php:421-429 | none if and only if no value is numeric; otherwise the int cast of the first numeric value |
| SearchMapping.ExtractFirstNumericValue | lib/Service/SearchMappingService.php:421-429 | the loop returns null if and only if no value is numeric, and otherwise the int cast of the first numeric one |
| SearchMapping.IntStringNormalizesAsInt | lib/Service/SearchMappingService.php:431-461 | the decimal string of any int is recognised exactly as the int is: "1" and "0" as true and false, every other one dropped |
| SearchMapping.BoolStringForms | lib/Service/SearchMappingService.php:431-461 | the string "1" of true is true again, but the string "" of false is not recognised, while false itself is |
| SearchMapping.BoolValuesMembers | lib/Service/SearchMappingService.php:293-300 | a truth value is collected if and only if some value normalizes to it |
| SearchMapping.CollectBooleanValues | lib/Service/SearchMappingService.php:293-300 | the BOOL loop collects the recognized booleans in order |
| SearchMapping.BooleanQueryCases | lib/Service/SearchMappingService.php:463-471 | requesting both truth values gives `''`; otherwise the clause is `field = true` or `field = false`, whichever was requested |
| SearchMapping.ContradictoryBoolDropped | lib/Service/SearchMappingService.php:292-307 | a BOOL query for [true, false] on an allowed field emits no clause |
| SearchMapping.BuildSimpleQueryClause | lib/Service/SearchMappingService.php:237-312 | one entry yields the clause its type calls for, or none when it is not a query, its field is refused, or its values flatten to nothing |
| SearchMapping.BuildSimpleQueryFilter | lib/Service/SearchMappingService.php:235-316 | `buildSimpleQueryFilter` is the AND-join of the entries' clauses, in order |
| SearchMapping.UnknownFieldDropped | lib/Service/SearchMappingService.php:242-245 | a query on a field whose trimmed name is not allow-listed contributes nothing |
| SearchMapping.RegexAndWildcardIgnored | lib/Service/SearchMappingService.php:308-311 | REGEX and WILDCARD queries contribute nothing |
| SearchMapping.ComparisonUsesFirstNumeric | lib/Service/SearchMappingService.php:268-291 | a GTE, LTE, GT or LT query on an allowed field compares, with its own operator, against the first numeric value only |
| SearchMapping.BuildFilterExpression | lib/Service/SearchMappingService.php:96-137 | `buildFilterExpression` is the AND-join of the provider clause, the parenthesised access filter, the optional clauses and the time window |
| SearchMapping.FilterClauseOrder | lib/Service/SearchMappingService.php:96-137 | the provider clause comes first and the never-empty parenthesised access clause second; then the meta, sub-tag and simple-query clauses in that order; `lastModified >= since` is last, present if and only if since > 0 |
| SearchMapping.FilterStartsWithProviderAndAccess | lib/Service/SearchMappingService.php:104-110 | the filter string starts with the provider clause, ` AND `, then the parenthesised access clause |
| SearchMapping.PaginationBounds | lib/Service/SearchMappingService.php:56-65 | the limit is the size if positive, else 20; offset ≥ 0, and 0 for pages ≤ 1; page n+1 starts where page n ends |
| SearchMapping.GetHighlightAttributes | lib/Service/SearchMappingService.php:324-338 | `getHighlightAttributes` returns the deduplicated `content`, `title` and `parts.<name>` list |
| SearchMapping.HighlightAttributesShape | lib/Service/SearchMappingService.php:324-338 | the list starts with `content`, `title` and has no duplicates; it holds `parts.` + the trimmed name of exactly the scalar parts whose name is not blank |
| SearchMapping.GenerateSearchQuery | lib/Service/SearchMappingService.php:50-73 | `generateSearchQuery` returns the request's query with filter, pagination and highlight settings |
| SearchMapping.SearchQueryShape | lib/Service/SearchMappingService.php:50-73 | the query keeps the search text; the filter opens with the provider and access clauses; limit > 0 and offset ≥ 0; the highlight list opens with `content`, `title`; the highlight tags are empty and match positions are requested |
| SearchMapping.EncodedIdDecodes | lib/Service/IndexMappingService.php:33-83 | for every pair, the encoded id decodes back to the pair when the round-trip condition holds |
| SearchMapping.DocumentQuery | lib/Service/SearchMappingService.php:82-84 | the engine id of a document decodes back to it whenever the codec round-trips for the pair |
| SearchService.TotalCases | lib/Service/SearchService.php:190 | the total is `estimatedTotalHits` when present and not null, else `totalHits`, else 0 |
| SearchService.SearchResult.UpdateSearchResult | lib/Service/SearchService.php:188-194 | the raw JSON (or `{}`), the total, the time, maxScore 0 and timedOut false are recorded; the documents are unchanged |
| SearchService.SearchResult.AddDocument | lib/Service/SearchService.php:88 | one document is appended and nothing else changes |
| SearchService.CollectFieldExcerpts | lib/Service/SearchService.php:236-244 | the first loop adds `content`, then `title`, each when it is a non-empty string, and records their sources |
| SearchService.CollectNestedExcerpts | lib/Service/SearchService.php:246-260 | the second loop adds `parts.<name>` for each string-keyed, non-empty nested part, and records the sources |
| SearchService.CollectFlatExcerpts | lib/Service/SearchService.php:262-274 | the third loop adds each non-empty flat `parts.*` field whose source was not recorded |
| SearchService.ParseSearchEntryExcerpts | lib/Service/SearchService.php:232-277 | returns the field excerpts, then the nested parts, then the flat part keys |
| SearchService.FieldExcerptsShape | lib/Service/SearchService.php:235-244 | field excerpts come from `content` or `title`, have text, and their sources differ |
| SearchService.NestedExcerptsShape | lib/Service/SearchService.php:246-260 | nested excerpts have `parts.`-prefixed, pairwise distinct sources and non-empty text |
| SearchService.FlatExcerptsShape | lib/Service/SearchService.php:262-274 | flat excerpts are distinct, `parts.`-prefixed, unseen, non-empty fields of the answer |
| SearchService.FlatExcerptsDisjoint | lib/Service/SearchService.php:266 | no flat excerpt has a source that was already recorded |
| SearchService.ExcerptsShape | lib/Service/SearchService.php:232-277 | every excerpt has text and a source that is `content`, `title` or starts with `parts.`; on an answer with distinct keys, the sources are pairwise distinct |
| SearchService.NestedSuppressesFlat | lib/Service/SearchService.php:246-274 | a nested `parts[name]` with text yields `parts.<name>`, and no flat `parts.<name>` key adds a second excerpt |
| SearchService.HitDocumentsSplit | lib/Service/SearchService.php:83-89 | each element of `hits` contributes, at its position, one document when it is an array with an `id` key and nothing otherwise |
| SearchService.HitDocumentsViewer | lib/Service/SearchService.php:83-88 | there are at most as many documents as hits; each is a parsed hit entry with the viewer and score `0` |
| SearchService.HitIdentity | lib/Service/SearchService.php:203-208 | a hit whose id the indexer produced maps back to the indexed identity whenever the codec round-trips for the pair |
| SearchService.StoredHitFields | lib/Service/SearchService.php:210-214 | a hit on a stored body reads back its hash, modification time, source and title |
| SearchService.IndexedHitFields | lib/Service/SearchService.php:210-214 | a hit on the payload the indexer sent reads back the document's hash, modification time, source and title |
| SearchService.SearchRequest | lib/Service/SearchService.php:43-92 | an empty index name or a client error is raised before the result is touched; otherwise the metadata is recorded and one document is added per array hit with an `id`, in order |
| SearchService.AddHitDocuments | lib/Service/SearchService.php:83-89 | the hit loop appends each parsed hit in order and changes nothing else |
| SearchService.LookupFound | lib/Service/SearchService.php:111-121 | the lookup returns v if and only if some candidate fetches v and every earlier candidate failed with a 404 and was not the last one |
| SearchService.LookupFails | lib/Service/SearchService.php:111-121 | the lookup raises e if and only if some candidate fails with e and is not skipped (not a 404, or the last candidate), and every earlier candidate was skipped |
| SearchService.LookupNeverRunsOut | lib/Service/SearchService.php:111-121 | with at least one candidate the loop ends in a value or an exception, never by running out |
| SearchService.GetDocumentInfos | lib/Service/SearchService.php:157-181 | the key loop returns the info fields of the stored array |
| SearchService.InfosFail | lib/Service/SearchService.php:158-160 | the key loop fails if and only if the stored array has an integer key (a TypeError under strict types) |
| SearchService.InfosGet | lib/Service/SearchService.php:157-181 | each stored key not prefixed `info_` holds its value typed array, then bool, then int, then string; other keys keep their info field |
| SearchService.GetDocument | lib/Service/SearchService.php:103-150 | an empty index name is a configuration error; otherwise the candidate lookup runs, and the document is rebuilt from what it fetched |
| SearchService.NothingStoredDefaults | lib/Service/SearchService.php:123-147 | with nothing fetched, every field takes its default: `''`, `[]` or 0 |
| SearchService.RebuiltFromStored | lib/Service/SearchService.php:127-147 | a document rebuilt from a stored body reads back its access, tags, hash, time, source, title, parts and content |
| SearchService.RebuiltFromPayload | lib/Service/SearchService.php:127-147 | a document rebuilt from the payload the indexer sent reads back the indexed document, with its content as indexed |
| Platform.Client.IndexDocument | lib/Platform/MeilisearchPlatform.php:138 | the engine's answer for the document; the request is logged |
| Platform.Client.DeleteIndex | lib/Platform/MeilisearchPlatform.php:215 | the engine's answer for the index; the request is logged |
| Platform.IndexingTemporary | lib/Platform/MeilisearchPlatform.php:147-148 | a run is temporary if and only if a loaded client could not reach the engine on the first attempt; then there is no retry, no content change, no error and no notification |
| Platform.IndexingAttempts | lib/Platform/MeilisearchPlatform.php:134-177 | any other run records one severity-3 error per failed attempt (at most two); content is cleared exactly when the first attempt failed; the document is sent again without content after a failure; the run returns the plain index exactly when both attempts failed |
| Platform.IndexingReported | lib/Platform/MeilisearchPlatform.php:141-172 | a run that is not temporary reports exactly one result: SUCCESS with no errors, WARNING with one, FAIL with two; it gives one severity-3 error notification per error |
| Platform.IndexingParsed | lib/Platform/MeilisearchPlatform.php:137-167 | a parsed index is the engine's answer to the last document sent |
| Platform.NotLoadedFails | lib/Platform/MeilisearchPlatform.php:134-177 | without a client, both attempts fail before anything is sent: two errors, empty content, the plain index |
| Platform.RetryCommunicationFails | lib/Platform/MeilisearchPlatform.php:168-176 | a communication failure on the retry is not temporary: it ends with the plain index and a second error |
| Platform.DeletionEvents | lib/Platform/MeilisearchPlatform.php:212-223 | one result per index, in order: SUCCESS if and only if deletion returned, WARNING otherwise |
| Platform.MaskedConfiguration | lib/Platform/MeilisearchPlatform.php:61-69 | a non-empty API key (in PHP's sense) is replaced by `********`; otherwise nothing changes; other keys are never changed |
| Platform.MaskedApiKeyShown | lib/Platform/MeilisearchPlatform.php:61-69 | of the stored settings, the host and the index are shown as stored, and the API key only when it is empty in PHP's sense (`''` or `'0'`) |
| Platform.MeilisearchPlatform.SetRunner | lib/Platform/MeilisearchPlatform.php:75-77 | the runner is set and the client is unchanged |
| Platform.MeilisearchPlatform.LoadPlatform | lib/Platform/MeilisearchPlatform.php:85-91 | an empty host is a configuration error that leaves the client unchanged; otherwise a new client with no requests is loaded |
| Platform.MeilisearchPlatform.GetClient | lib/Platform/MeilisearchPlatform.php:311-317 | fails with "platform not loaded" if and only if no client is loaded |
| Platform.MeilisearchPlatform.Notify | lib/Platform/MeilisearchPlatform.php:253-290 | an event reaches the runner when one is set, and nothing happens otherwise |
| Platform.MeilisearchPlatform.Send | lib/Platform/MeilisearchPlatform.php:138 | the attempt is "not loaded" without a client, and otherwise the engine's answer, with the request logged |
| Platform.MeilisearchPlatform.ManageIndexError | lib/Platform/MeilisearchPlatform.php:199-206 | one severity-3 error is added to the index and reported to the runner, if set |
| Platform.MeilisearchPlatform.IndexDocument | lib/Platform/MeilisearchPlatform.php:134-177 | the outcome, the document, the added errors, the requests sent and the notifications are those of the indexing run of the hashed document; the outcome never depends on the runner |
| Platform.MeilisearchPlatform.RetryWithoutContent | lib/Platform/MeilisearchPlatform.php:158-192 | the retry announces indexing without content, clears the content and sends again; on success it reports WARNING, on failure FAIL plus a second error |
| Platform.MeilisearchPlatform.DeleteIndexes | lib/Platform/MeilisearchPlatform.php:212-223 | a loaded client receives one deletion per index, in order; the runner receives one result per index; nothing is raised |
| Platform.MeilisearchPlatform.DeleteIndex | lib/Platform/MeilisearchPlatform.php:214-221 | one deletion request (when a client is loaded) and one result, SUCCESS if and only if it returned |

## Left out

- The Meilisearch client: `index()`, `search`, `addDocuments`, `updateDocuments`, `deleteDocument`, `getDocument` and `health` are network I/O. Their answers are parameters or oracle functions, fixed per request.
- The engine's reading of a quoted filter string (`ReadQuoted`) is an assumption about Meilisearch. The engine's own parser is not part of this model.
- `configureIndexSettings` sends attribute lists to the engine; only the lists are modelled (`IndexMapping.FilterableAttributes`).
- `json_encode`, `base64_decode` and `mb_check_encoding` are foreign library functions. They are parameters.
- `is_numeric` and `(int)` on strings are restricted to optionally signed ASCII digit strings, and floats are not modelled. So float inputs to `normalizeBooleanValue` and float scalars are outside the model.
- The `TArrayTools` helpers `get` and `getInt` are not part of this model. They are taken to be lookup, cast and default.
- `IndexMappingService::getDocumentIdCandidates` is not defined in the files modelled. `SearchService.GetDocument` takes the candidate list as a parameter.
- The host classes `IndexDocument`, `DocumentAccess`, `IndexService` and `IRunner` are not part of this model. Their setters are taken to be plain stores, `getSubTags(true)` to be the stored sub tags, and `setContent('')` to clear the base64 flag.
- `initHash` is the host's; `Platform.MeilisearchPlatform.IndexDocument` takes it as a parameter.
- `parseIndexResult` belongs to `IndexService`, which is not part of this model. A parsed index is represented by the engine's raw response, and a `parseIndexResult` that throws is not modelled.
- A runner whose methods throw is not modelled.
- Exception messages and class names are abstracted into the cause of an error, and the runner's numeric result types into named values.
- Platform.MeilisearchPlatform.LoadPlatform: does not pass the API key to the client, because the client is an oracle that does not authenticate.
- `loadClientLibrary`, `testPlatform`, `initializeIndex`, `resetIndex` and the `searchRequest`/`getDocument` delegations of the platform are plumbing around client calls, and are not modelled.
- Logging is a side channel and is not modelled.
- The `SearchQueryGenerationException` catch in `searchRequest` is unreachable: `generateSearchQuery` never raises it. The check for a null indexing exception in `indexDocument` (lines 154-156) is unreachable too.
- Dotted simple-query field names match the field grammar, but none is on the allow-list, so the allow-list is modelled as the effective rule.
- `ConfigService` beyond the empty-index and empty-host errors is not modelled. Neither are the CLI command, the settings controller or the admin UI.
- IndexMapping.EncodeRoundTrip: holds for legacy ids only under a side condition on the ids, because the code's legacy scheme is not injective; see `IndexMapping.LegacyCollision`.
- SearchMapping.DocumentQuery: its round-trip is conditional in the same way as `IndexMapping.EncodeRoundTrip`.
- SearchService.ExcerptsShape: distinct sources are proved for answers whose arrays have distinct keys, which every JSON object decoded by PHP has.
- Arrays are taken to have PHP-normalised keys: PHP stores a decimal-integer string key such as "7" as the int key 7, and `Key` does not enforce this. So `SearchService.InfosFail` and the string-key test in `SearchService.CollectNestedExcerpts` are faithful on arrays whose decimal-integer keys are `KInt`.
- PHP integers are 64-bit, and the model's integers are unbounded. `(int)` of a numeric string beyond the 64-bit range saturates at PHP_INT_MAX or PHP_INT_MIN in PHP, but `StringToInt` keeps the exact value. This affects INT_EQ values, the first numeric value of comparisons, `since` and the `get`/`getInt` reads of totals and times. Likewise `($page - 1) * $size` becomes a float once it passes PHP_INT_MAX, while `SearchMapping.Pagination` stays exact.
