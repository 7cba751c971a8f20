/**
 * The collaborators the plugin talks to, reduced to data: the host's
 * document and access records, and the outcomes a Meilisearch client call
 * can have.  Network calls themselves are not modelled; a method that would
 * call the client takes the client's answers as a parameter.
 */
module Host {
  import opened Php

  /** The access record stored with an indexed document. */
  datatype DocumentAccess = DocumentAccess(
    ownerId: Bytes,
    users: PArray,
    groups: PArray,
    circles: PArray,
    links: PArray)

  /** `IIndexDocument::ENCODED_BASE64` or anything else. */
  datatype ContentEncoding = Plain | Base64

  /** A document handed over for indexing. */
  datatype IndexDocument = IndexDocument(
    providerId: Bytes,
    id: Bytes,
    access: DocumentAccess,
    metaTags: PArray,
    subTags: PArray,
    tags: PArray,
    hash: Bytes,
    modifiedTime: int,
    source: Bytes,
    title: Bytes,
    parts: PArray,
    content: Bytes,
    encoding: ContentEncoding,
    info: PArray)

  /**
   * The searching principal's view of access (`IDocumentAccess` at search
   * time): the viewer and the groups, circles and links they belong to.
   */
  datatype ViewerAccess = ViewerAccess(
    viewerId: Bytes,
    groups: seq<Value>,
    circles: seq<Value>,
    links: seq<Value>)

  /**
   * How a Meilisearch client call can fail: an `ApiException` (the engine
   * answered with an HTTP error code), a `CommunicationException` (the engine
   * could not be reached), or any other exception.
   */
  datatype ClientError =
    | ApiError(code: int)
    | CommunicationError
    | OtherError(message: Bytes)

  /** What the plugin raises to its caller. */
  datatype Failure =
    | ConfigurationFailure
    | ClientFailure(error: ClientError)
    | TypeFailure

  // The field names of a document stored in the engine.
  const OwnerKey: Bytes := "owner"
  const UsersKey: Bytes := "users"
  const GroupsKey: Bytes := "groups"
  const CirclesKey: Bytes := "circles"
  const LinksKey: Bytes := "links"
  const MetaTagsKey: Bytes := "metatags"
  const SubTagsKey: Bytes := "subtags"
  const TagsKey: Bytes := "tags"
  const HashKey: Bytes := "hash"
  const ProviderKey: Bytes := "provider"
  const LastModifiedKey: Bytes := "lastModified"
  const SourceKey: Bytes := "source"
  const TitleKey: Bytes := "title"
  const PartsKey: Bytes := "parts"
  const ContentKey: Bytes := "content"
  const IdKey: Bytes := "id"

  /** The prefix of a document part's field name: "parts." + the part's name. */
  const PartsPrefix: Bytes := "parts."

  // The fields of a search response and of one hit in it.
  const HitsKey: Bytes := "hits"
  const FormattedKey: Bytes := "_formatted"
  const EstimatedTotalHitsKey: Bytes := "estimatedTotalHits"
  const TotalHitsKey: Bytes := "totalHits"
  const ProcessingTimeKey: Bytes := "processingTimeMs"

  /** A value, or the failure raised instead of returning one. */
  datatype Result<+T> = Ok(value: T) | Err(failure: Failure)

  /**
   * `encodeJson`, as both the search service and the platform write it: the
   * JSON text `json_encode` produced, or "{}" when it failed.
   */
  function JsonOrEmpty(json: Option<Bytes>): Bytes {
    if json.Some? then json.value else "{}"
  }

  /**
   * `ConfigService::getMeilisearchIndex`: the configured index name, or a
   * ConfigurationException when it is empty.
   */
  function IndexName(configured: Bytes): Option<Bytes> {
    if configured == "" then None else Some(configured)
  }
}
