/**
 * The platform object (`MeilisearchPlatform`): the client and runner it
 * holds, the indexing failure policy of `indexDocument`, the deletion loop
 * of `deleteIndexes` and the masked configuration.  The Meilisearch client
 * is an object that records the requests it receives and answers them from
 * fixed oracles; the runner is an object that records the notifications it
 * receives.
 */
module Platform {
  import opened Php
  import opened Host

  // ---------------------------------------------------------------------------
  // Indexes, errors and runner notifications
  // ---------------------------------------------------------------------------

  /** The `IIndex` of a document: a provider and a document id. */
  datatype Index = Index(providerId: Bytes, documentId: Bytes)

  function IndexOf(doc: IndexDocument): Index {
    Index(doc.providerId, doc.id)
  }

  /**
   * An exception thrown while indexing or deleting: the ClientException
   * "platform not loaded" of `getClient`, or an exception of the client.
   * Its message and class are what the index error and the runner receive.
   */
  datatype Thrown = NotLoaded | ClientThrew(error: ClientError)

  /** `IIndex::ERROR_SEV_3`. */
  const ErrorSev3: int := 3

  /** An error added to a document's index with `addError`. */
  datatype IndexError = IndexError(cause: Thrown, severity: int)

  /** `IRunner::RESULT_TYPE_SUCCESS`, `_WARNING` and `_FAIL`. */
  datatype ResultType = SuccessResult | WarningResult | FailResult

  /** A notification the runner receives. */
  datatype RunnerEvent =
    | UpdateAction(action: Bytes, force: bool)
    | NewIndexError(index: Index, cause: Thrown, severity: int)
    | NewIndexResult(index: Index, message: Bytes, status: Bytes, resultType: ResultType)

  // The messages and statuses of the notifications.
  const OkStatus: Bytes := "ok"
  const FailStatus: Bytes := "fail"
  const WithoutContentAction: Bytes := "indexDocumentWithoutContent"
  const DeletedMessage: Bytes := "index deleted"
  const DeletedStatus: Bytes := "success"
  const NotDeletedMessage: Bytes := "index not deleted"
  const NotDeletedStatus: Bytes := "issue while deleting index"

  /** The result types of the `NewIndexResult` notifications, in order. */
  function ResultTypes(events: seq<RunnerEvent>): seq<ResultType> {
    if events == [] then []
    else
      var last := events[|events| - 1];
      ResultTypes(events[..|events| - 1]) + (if last.NewIndexResult? then [last.resultType] else [])
  }

  /** The severities of the `NewIndexError` notifications, in order. */
  function ErrorSeverities(events: seq<RunnerEvent>): seq<int> {
    if events == [] then []
    else
      var last := events[|events| - 1];
      ErrorSeverities(events[..|events| - 1]) + (if last.NewIndexError? then [last.severity] else [])
  }

  // ---------------------------------------------------------------------------
  // The client, the runner and the document being indexed
  // ---------------------------------------------------------------------------

  /** What the engine answers to `indexService->indexDocument`. */
  datatype IndexAnswer = Indexed(response: PArray) | IndexFailed(error: ClientError)

  /**
   * The Meilisearch client: `indexAnswer` and `deleteAnswer` are the
   * engine's answers (a deletion answers None when it returned); `sent` and
   * `deleted` record the requests in the order they were made.
   */
  class Client {
    const indexAnswer: IndexDocument -> IndexAnswer
    const deleteAnswer: Index -> Option<ClientError>
    var sent: seq<IndexDocument>
    var deleted: seq<Index>

    constructor (indexAnswer: IndexDocument -> IndexAnswer, deleteAnswer: Index -> Option<ClientError>)
      ensures this.indexAnswer == indexAnswer && this.deleteAnswer == deleteAnswer
      ensures sent == [] && deleted == []
    {
      this.indexAnswer := indexAnswer;
      this.deleteAnswer := deleteAnswer;
      sent := [];
      deleted := [];
    }

    /** `indexService->indexDocument($client, $document)`. */
    method IndexDocument(doc: IndexDocument) returns (answer: IndexAnswer)
      modifies this
      ensures answer == indexAnswer(doc)
      ensures sent == old(sent) + [doc] && deleted == old(deleted)
    {
      sent := sent + [doc];
      answer := indexAnswer(doc);
    }

    /** `indexService->deleteIndex($client, $index)`. */
    method DeleteIndex(index: Index) returns (error: Option<ClientError>)
      modifies this
      ensures error == deleteAnswer(index)
      ensures deleted == old(deleted) + [index] && sent == old(sent)
    {
      deleted := deleted + [index];
      error := deleteAnswer(index);
    }
  }

  /** The `IRunner`: the notifications it has received. */
  class Runner {
    var events: seq<RunnerEvent>

    constructor ()
      ensures events == []
    {
      events := [];
    }

    method Receive(e: RunnerEvent)
      modifies this
      ensures events == old(events) + [e]
    {
      events := events + [e];
    }
  }

  /** The `IIndexDocument` being indexed: its fields and the errors of its index. */
  class DocumentState {
    var document: IndexDocument
    var errors: seq<IndexError>

    constructor (document: IndexDocument)
      ensures this.document == document && errors == []
    {
      this.document := document;
      errors := [];
    }
  }

  // ---------------------------------------------------------------------------
  // The failure policy of indexDocument, as a function
  // ---------------------------------------------------------------------------

  /** What `getClient()` followed by a client call leaves: a response or an exception. */
  datatype Attempt = Sent(response: PArray) | Threw(cause: Thrown)

  function TrySend(client: Client?, doc: IndexDocument): Attempt {
    if client == null then Threw(NotLoaded)
    else match client.indexAnswer(doc)
      case Indexed(response) => Sent(response)
      case IndexFailed(error) => Threw(ClientThrew(error))
  }

  /** What `indexDocument` returns, or the PlatformTemporaryException it throws. */
  datatype IndexingOutcome =
    | ParsedIndex(response: PArray)
    | DocumentIndex
    | TemporaryFailure

  /**
   * One run of `indexDocument` on an already hashed document: what it
   * returns, the document afterwards, the errors added to its index, the
   * documents handed to the client and the notifications a runner receives.
   */
  datatype IndexingRun = IndexingRun(
    outcome: IndexingOutcome,
    document: IndexDocument,
    errors: seq<IndexError>,
    sent: seq<IndexDocument>,
    events: seq<RunnerEvent>)

  /** `setContent('')`: the content is cleared and no longer flagged as encoded. */
  function WithoutContent(doc: IndexDocument): IndexDocument {
    doc.(content := "", encoding := Plain)
  }

  function SentIfLoaded(client: Client?, doc: IndexDocument): seq<IndexDocument> {
    if client == null then [] else [doc]
  }

  /** The notifications of the retry: the switch to indexing without content, a result of type `t`, then the second error if any. */
  function RetryEvents(index: Index, message: Bytes, status: Bytes, t: ResultType, second: Option<Thrown>): seq<RunnerEvent> {
    [UpdateAction(WithoutContentAction, true), NewIndexResult(index, message, status, t)]
    + (if second.Some? then [NewIndexError(index, second.value, ErrorSev3)] else [])
  }

  /**
   * `indexDocumentError` and the second attempt of `indexDocument`: the
   * content is cleared and the document sent again; WARNING on success,
   * FAIL and an error otherwise.
   */
  function RetryRunOf(doc: IndexDocument, client: Client?, jsonEncode: PArray -> Option<Bytes>): IndexingRun {
    var index := IndexOf(doc);
    var stripped := WithoutContent(doc);
    match TrySend(client, stripped)
    case Sent(response) =>
      IndexingRun(ParsedIndex(response), stripped, [], SentIfLoaded(client, stripped),
                  RetryEvents(index, JsonOrEmpty(jsonEncode(response)), OkStatus, WarningResult, None))
    case Threw(second) =>
      IndexingRun(DocumentIndex, stripped, [IndexError(second, ErrorSev3)], SentIfLoaded(client, stripped),
                  RetryEvents(index, "", FailStatus, FailResult, Some(second)))
  }

  /**
   * The policy of `indexDocument`: a first success reports SUCCESS; a
   * communication failure becomes a temporary failure and nothing else; any
   * other failure is recorded and followed by the retry.
   */
  function IndexingRunOf(doc: IndexDocument, client: Client?, jsonEncode: PArray -> Option<Bytes>): IndexingRun {
    var index := IndexOf(doc);
    match TrySend(client, doc)
    case Sent(response) =>
      IndexingRun(ParsedIndex(response), doc, [], [doc],
                  [NewIndexResult(index, JsonOrEmpty(jsonEncode(response)), OkStatus, SuccessResult)])
    case Threw(ClientThrew(CommunicationError)) =>
      IndexingRun(TemporaryFailure, doc, [], [doc], [])
    case Threw(first) =>
      var retry := RetryRunOf(doc, client, jsonEncode);
      IndexingRun(retry.outcome, retry.document, [IndexError(first, ErrorSev3)] + retry.errors,
                  SentIfLoaded(client, doc) + retry.sent, [NewIndexError(index, first, ErrorSev3)] + retry.events)
  }

  /** The retry reports one result, of type `t`, and the second error when there is one. */
  lemma RetryEventKinds(index: Index, first: Thrown, message: Bytes, status: Bytes, t: ResultType, second: Option<Thrown>)
    ensures ResultTypes([NewIndexError(index, first, ErrorSev3)] + RetryEvents(index, message, status, t, second)) == [t]
    ensures ErrorSeverities([NewIndexError(index, first, ErrorSev3)] + RetryEvents(index, message, status, t, second))
            == [ErrorSev3] + (if second.Some? then [ErrorSev3] else [])
  {
    var before := [NewIndexError(index, first, ErrorSev3)];
    var after := RetryEvents(index, message, status, t, second);
    assert ResultTypes(before) == [] && ErrorSeverities(before) == [ErrorSev3];
    assert after[..1] == [after[0]];
    assert ResultTypes(after[..1]) == [] && ErrorSeverities(after[..1]) == [];
    assert after[..2][..1] == after[..1];
    assert ResultTypes(after[..2]) == [t] && ErrorSeverities(after[..2]) == [];
    if second.Some? {
      assert after[..|after| - 1] == after[..2];
    } else {
      assert after == after[..2];
    }
    ResultTypesAppend(before, after);
    ErrorSeveritiesAppend(before, after);
  }

  /** A run is temporary exactly when a loaded client could not reach the engine on the first attempt; then nothing is recorded. */
  lemma IndexingTemporary(doc: IndexDocument, client: Client?, jsonEncode: PArray -> Option<Bytes>)
    ensures var r := IndexingRunOf(doc, client, jsonEncode);
      && (r.outcome.TemporaryFailure? <==> client != null && client.indexAnswer(doc) == IndexFailed(CommunicationError))
      && (r.outcome.TemporaryFailure? ==> r.document == doc && r.errors == [] && r.events == [] && r.sent == [doc])
  {
  }

  /**
   * Every other run sends the document, and once more without content after
   * a failure; it records one severity-3 error per failed attempt, the
   * document keeps its content exactly when the first attempt succeeded, and
   * the run ends with the index only when both attempts failed.
   */
  lemma IndexingAttempts(doc: IndexDocument, client: Client?, jsonEncode: PArray -> Option<Bytes>)
    ensures var r := IndexingRunOf(doc, client, jsonEncode);
      !r.outcome.TemporaryFailure? ==>
        && |r.errors| <= 2
        && (forall i :: 0 <= i < |r.errors| ==> r.errors[i].severity == ErrorSev3)
        && (r.outcome.DocumentIndex? <==> |r.errors| == 2)
        && r.sent == SentIfLoaded(client, doc) + (if r.errors == [] then [] else SentIfLoaded(client, WithoutContent(doc)))
        && r.document == (if r.errors == [] then doc else WithoutContent(doc))
  {
  }

  /**
   * The runner receives exactly one result per run that is not temporary,
   * whose type counts the failed attempts (SUCCESS, WARNING, FAIL), and one
   * severity-3 error notification per recorded error.
   */
  lemma IndexingReported(doc: IndexDocument, client: Client?, jsonEncode: PArray -> Option<Bytes>)
    ensures var r := IndexingRunOf(doc, client, jsonEncode);
      !r.outcome.TemporaryFailure? ==>
        && ResultTypes(r.events)
           == [if r.errors == [] then SuccessResult else if |r.errors| == 1 then WarningResult else FailResult]
        && ErrorSeverities(r.events) == seq(|r.errors|, _ => ErrorSev3)
  {
    var index := IndexOf(doc);
    match TrySend(client, doc)
    case Sent(response) =>
      var events := [NewIndexResult(index, JsonOrEmpty(jsonEncode(response)), OkStatus, SuccessResult)];
      assert events[..0] == [];
    case Threw(first) =>
      if first != ClientThrew(CommunicationError) {
        match TrySend(client, WithoutContent(doc))
        case Sent(response) =>
          RetryEventKinds(index, first, JsonOrEmpty(jsonEncode(response)), OkStatus, WarningResult, None);
        case Threw(second) =>
          RetryEventKinds(index, first, "", FailStatus, FailResult, Some(second));
      }
  }

  /** A run that returns a parsed index returns what the engine answered to the last document sent. */
  lemma IndexingParsed(doc: IndexDocument, client: Client?, jsonEncode: PArray -> Option<Bytes>)
    ensures var r := IndexingRunOf(doc, client, jsonEncode);
      r.outcome.ParsedIndex? ==> client != null && r.sent != [] && client.indexAnswer(r.sent[|r.sent| - 1]) == Indexed(r.outcome.response)
  {
  }

  lemma {:induction false} ResultTypesAppend(xs: seq<RunnerEvent>, ys: seq<RunnerEvent>)
    ensures ResultTypes(xs + ys) == ResultTypes(xs) + ResultTypes(ys)
    decreases |ys|
  {
    if ys == [] {
      assert xs + ys == xs;
    } else {
      var init := ys[..|ys| - 1];
      assert (xs + ys)[..|xs + ys| - 1] == xs + init;
      ResultTypesAppend(xs, init);
    }
  }

  lemma {:induction false} ErrorSeveritiesAppend(xs: seq<RunnerEvent>, ys: seq<RunnerEvent>)
    ensures ErrorSeverities(xs + ys) == ErrorSeverities(xs) + ErrorSeverities(ys)
    decreases |ys|
  {
    if ys == [] {
      assert xs + ys == xs;
    } else {
      var init := ys[..|ys| - 1];
      assert (xs + ys)[..|xs + ys| - 1] == xs + init;
      ErrorSeveritiesAppend(xs, init);
    }
  }

  /** Without a loaded client both attempts fail before anything is sent: FAIL and two errors. */
  lemma NotLoadedFails(doc: IndexDocument, jsonEncode: PArray -> Option<Bytes>)
    ensures var r := IndexingRunOf(doc, null, jsonEncode);
      && r.outcome == DocumentIndex && r.sent == []
      && r.errors == [IndexError(NotLoaded, ErrorSev3), IndexError(NotLoaded, ErrorSev3)]
      && r.document.content == ""
  {
  }

  /** A communication failure on the retry is not temporary: it ends in FAIL like any other. */
  lemma RetryCommunicationFails(doc: IndexDocument, client: Client, jsonEncode: PArray -> Option<Bytes>)
    requires client.indexAnswer(doc).IndexFailed? && client.indexAnswer(doc).error != CommunicationError
    requires client.indexAnswer(WithoutContent(doc)) == IndexFailed(CommunicationError)
    ensures var r := IndexingRunOf(doc, client, jsonEncode);
      && r.outcome == DocumentIndex
      && r.errors == [IndexError(ClientThrew(client.indexAnswer(doc).error), ErrorSev3),
                      IndexError(ClientThrew(CommunicationError), ErrorSev3)]
  {
  }

  // ---------------------------------------------------------------------------
  // deleteIndexes, as a function
  // ---------------------------------------------------------------------------

  /** Whether `deleteIndex` returned for `index`: a client is loaded and the engine did not throw. */
  predicate Deletes(client: Client?, index: Index) {
    client != null && client.deleteAnswer(index).None?
  }

  /** The notification for one index of `deleteIndexes`. */
  function DeletionEvent(client: Client?, index: Index): RunnerEvent {
    if Deletes(client, index) then NewIndexResult(index, DeletedMessage, DeletedStatus, SuccessResult)
    else NewIndexResult(index, NotDeletedMessage, NotDeletedStatus, WarningResult)
  }

  /** The notifications of `deleteIndexes`, one per index and in order. */
  function DeletionEvents(client: Client?, indexes: seq<Index>): (r: seq<RunnerEvent>)
    ensures |r| == |indexes|
    ensures forall i :: 0 <= i < |r| ==>
      && r[i].NewIndexResult? && r[i].index == indexes[i]
      && (r[i].resultType == SuccessResult <==> Deletes(client, indexes[i]))
      && (r[i].resultType == SuccessResult || r[i].resultType == WarningResult)
  {
    if indexes == [] then []
    else DeletionEvents(client, indexes[..|indexes| - 1]) + [DeletionEvent(client, indexes[|indexes| - 1])]
  }

  /** The indexes `deleteIndexes` asks the client to delete: all of them, once a client is loaded. */
  function DeletionRequests(client: Client?, indexes: seq<Index>): seq<Index> {
    if client == null then [] else indexes
  }

  // ---------------------------------------------------------------------------
  // getConfiguration
  // ---------------------------------------------------------------------------

  // `ConfigLexicon`'s keys and the mask of `getConfiguration`.
  const HostConfigKey: Bytes := "meilisearch_host"
  const IndexConfigKey: Bytes := "meilisearch_index"
  const ApiKeyConfigKey: Bytes := "meilisearch_api_key"
  const MaskedApiKey: Bytes := "********"

  /** `ConfigService::getConfig`: the three stored settings. */
  function Configuration(host: Bytes, index: Bytes, apiKey: Bytes): PArray {
    [(KStr(HostConfigKey), Str(host)), (KStr(IndexConfigKey), Str(index)), (KStr(ApiKeyConfigKey), Str(apiKey))]
  }

  /**
   * `getConfiguration`: the settings with a non-empty API key (PHP's
   * `!empty`, for which "0" is empty) replaced by the mask.
   */
  function MaskedConfiguration(config: PArray): (r: PArray)
    ensures MasksApiKey(config) ==> Get(r, KStr(ApiKeyConfigKey)) == Some(Str(MaskedApiKey)) && |r| == |config|
    ensures !MasksApiKey(config) ==> r == config
    ensures forall k :: k != KStr(ApiKeyConfigKey) ==> Get(r, k) == Get(config, k)
  {
    match Get(config, KStr(ApiKeyConfigKey))
    case Some(v) =>
      GetSpec(config, KStr(ApiKeyConfigKey));
      if !IsEmptyValue(v) then Put(config, KStr(ApiKeyConfigKey), Str(MaskedApiKey)) else config
    case None => config
  }

  /** Whether the configuration holds an API key that is not empty in PHP's sense. */
  predicate MasksApiKey(config: PArray) {
    Get(config, KStr(ApiKeyConfigKey)).Some? && !IsEmptyValue(Get(config, KStr(ApiKeyConfigKey)).value)
  }

  /** PHP's `empty` on a stored value. */
  predicate IsEmptyValue(v: Value) {
    match v
    case Str(s) => IsEmptyString(s)
    case Int(i) => i == 0
    case Bool(b) => !b
    case Arr(es) => es == []
    case Null => true
  }

  /** The API key is shown exactly when it is empty in PHP's sense; the host and the index are shown as stored. */
  lemma MaskedApiKeyShown(host: Bytes, index: Bytes, apiKey: Bytes)
    ensures var r := MaskedConfiguration(Configuration(host, index, apiKey));
      && Get(r, KStr(HostConfigKey)) == Some(Str(host))
      && Get(r, KStr(IndexConfigKey)) == Some(Str(index))
      && Get(r, KStr(ApiKeyConfigKey)) == Some(Str(if IsEmptyString(apiKey) then apiKey else MaskedApiKey))
  {
    var config := Configuration(host, index, apiKey);
    // The three keys differ after their common prefix "meilisearch_".
    assert HostConfigKey[12] == 'h' && IndexConfigKey[12] == 'i' && ApiKeyConfigKey[12] == 'a';
    assert config[1..] == [config[1], config[2]] && config[1..][1..] == [config[2]];
    assert Get(config[1..][1..], KStr(ApiKeyConfigKey)) == Some(Str(apiKey));
    assert Get(config, KStr(ApiKeyConfigKey)) == Some(Str(apiKey));
  }

  // ---------------------------------------------------------------------------
  // The platform
  // ---------------------------------------------------------------------------

  class MeilisearchPlatform {
    var client: Client?
    var runner: Runner?

    constructor ()
      ensures client == null && runner == null
    {
      client := null;
      runner := null;
    }

    /** `setRunner`. */
    method SetRunner(r: Runner)
      modifies this
      ensures runner == r && client == old(client)
    {
      runner := r;
    }

    /**
     * `loadPlatform`: a ConfigurationException for an empty host, otherwise
     * a new client on it.  The client's answers stand for the engine behind
     * the host.
     */
    method LoadPlatform(host: Bytes, indexAnswer: IndexDocument -> IndexAnswer, deleteAnswer: Index -> Option<ClientError>)
      returns (failure: Option<Failure>)
      modifies this
      ensures host == "" ==> failure == Some(ConfigurationFailure) && client == old(client)
      ensures host != "" ==> failure.None? && client != null && fresh(client)
                             && client.indexAnswer == indexAnswer && client.deleteAnswer == deleteAnswer
                             && client.sent == [] && client.deleted == []
      ensures runner == old(runner)
    {
      if host == "" {
        return Some(ConfigurationFailure);
      }
      client := new Client(indexAnswer, deleteAnswer);
      failure := None;
    }

    /** `getClient`: the ClientException "platform not loaded" exactly when no client is loaded. */
    method GetClient() returns (failure: Option<Thrown>)
      ensures failure.Some? <==> client == null
      ensures failure.Some? ==> failure.value == NotLoaded
    {
      if client == null {
        return Some(NotLoaded);
      }
      failure := None;
    }

    /** `updateRunnerAction`, `updateNewIndexError` and `updateNewIndexResult`: nothing without a runner. */
    method Notify(e: RunnerEvent)
      modifies runner
      ensures runner != null ==> runner.events == old(runner.events) + [e]
    {
      if runner == null {
        return;
      }
      runner.Receive(e);
    }

    /** `getClient()` then `indexService->indexDocument`. */
    method Send(doc: IndexDocument) returns (attempt: Attempt)
      modifies client
      ensures attempt == TrySend(client, doc)
      ensures client != null ==> client.sent == old(client.sent) + [doc] && client.deleted == old(client.deleted)
    {
      var failure := GetClient();
      if failure.Some? {
        return Threw(failure.value);
      }
      var answer := client.IndexDocument(doc);
      match answer
      case Indexed(response) => attempt := Sent(response);
      case IndexFailed(error) => attempt := Threw(ClientThrew(error));
    }

    /** `manageIndexErrorException`: record a severity-3 error and tell the runner. */
    method ManageIndexError(d: DocumentState, cause: Thrown)
      modifies d, runner
      ensures d.errors == old(d.errors) + [IndexError(cause, ErrorSev3)] && d.document == old(d.document)
      ensures runner != null ==> runner.events == old(runner.events) + [NewIndexError(IndexOf(d.document), cause, ErrorSev3)]
    {
      d.errors := d.errors + [IndexError(cause, ErrorSev3)];
      Notify(NewIndexError(IndexOf(d.document), cause, ErrorSev3));
    }

    /**
     * `indexDocument`.  `initHash` stands for the document's own `initHash`.
     */
    method IndexDocument(d: DocumentState, initHash: IndexDocument -> IndexDocument, jsonEncode: PArray -> Option<Bytes>)
      returns (outcome: IndexingOutcome)
      modifies d, client, runner
      ensures var run := IndexingRunOf(initHash(old(d.document)), client, jsonEncode);
        && outcome == run.outcome
        && d.document == run.document
        && d.errors == old(d.errors) + run.errors
        && (client != null ==> client.sent == old(client.sent) + run.sent && client.deleted == old(client.deleted))
        && (runner != null ==> runner.events == old(runner.events) + run.events)
    {
      d.document := initHash(d.document);
      var index := IndexOf(d.document);
      var first := Send(d.document);
      match first {
        case Sent(response) =>
          Notify(NewIndexResult(index, JsonOrEmpty(jsonEncode(response)), OkStatus, SuccessResult));
          return ParsedIndex(response);
        case Threw(cause) =>
          if cause == ClientThrew(CommunicationError) {
            return TemporaryFailure;
          }
          ManageIndexError(d, cause);
      }
      outcome := RetryWithoutContent(d, jsonEncode);
    }

    /** `indexDocumentError` and the second attempt of `indexDocument`. */
    method RetryWithoutContent(d: DocumentState, jsonEncode: PArray -> Option<Bytes>) returns (outcome: IndexingOutcome)
      modifies d, client, runner
      ensures var run := RetryRunOf(old(d.document), client, jsonEncode);
        && outcome == run.outcome
        && d.document == run.document
        && d.errors == old(d.errors) + run.errors
        && (client != null ==> client.sent == old(client.sent) + run.sent && client.deleted == old(client.deleted))
        && (runner != null ==> runner.events == old(runner.events) + run.events)
    {
      var index := IndexOf(d.document);
      Notify(UpdateAction(WithoutContentAction, true));
      d.document := WithoutContent(d.document);
      var second := Send(d.document);
      match second {
        case Sent(response) =>
          Notify(NewIndexResult(index, JsonOrEmpty(jsonEncode(response)), OkStatus, WarningResult));
          outcome := ParsedIndex(response);
        case Threw(cause) =>
          Notify(NewIndexResult(index, "", FailStatus, FailResult));
          ManageIndexError(d, cause);
          outcome := DocumentIndex;
      }
    }

    /** `deleteIndexes`: one notification per index, and no exception escapes. */
    method DeleteIndexes(indexes: seq<Index>)
      modifies client, runner
      ensures client != null ==> client.deleted == old(client.deleted) + DeletionRequests(client, indexes)
                                 && client.sent == old(client.sent)
      ensures runner != null ==> runner.events == old(runner.events) + DeletionEvents(client, indexes)
    {
      var i := 0;
      while i < |indexes|
        invariant 0 <= i <= |indexes|
        invariant client != null ==> client.deleted == old(client.deleted) + DeletionRequests(client, indexes[..i])
                                     && client.sent == old(client.sent)
        invariant runner != null ==> runner.events == old(runner.events) + DeletionEvents(client, indexes[..i])
      {
        assert indexes[..i + 1][..i] == indexes[..i];
        DeleteIndex(indexes[i]);
        i := i + 1;
      }
      assert indexes[..i] == indexes;
    }

    /** One pass of the loop of `deleteIndexes`. */
    method DeleteIndex(index: Index)
      modifies client, runner
      ensures client != null ==> client.deleted == old(client.deleted) + [index] && client.sent == old(client.sent)
      ensures runner != null ==> runner.events == old(runner.events) + [DeletionEvent(client, index)]
    {
      var failure := GetClient();
      var deleted := false;
      if failure.None? {
        var error := client.DeleteIndex(index);
        deleted := error.None?;
      }
      if deleted {
        Notify(NewIndexResult(index, DeletedMessage, DeletedStatus, SuccessResult));
      } else {
        Notify(NewIndexResult(index, NotDeletedMessage, NotDeletedStatus, WarningResult));
      }
    }
  }
}
