/** The gate in `function_handler` (src/main.rs, lines 94-117): decide
    from the decoded payload whether a post is built and handed to the
    social-network client. The client is reduced to what its two steps
    return (building the agent and logging in, then `create_record`), and
    `published` records every record handed to `create_record`. */
module Handler {
  import opened Wrappers
  import opened Statuspage
  import opened Bsky
  import PostBuilder
  import Casing

  const NO_PAYLOAD_ERROR: string := "No payload provided"

  datatype Response = Response(status: nat, contentType: string, body: string)

  /** The response of every successful invocation, skips included. */
  const SUCCESS: Response := Response(200, "text/html", "Success")

  /** What the client's steps report: `sessionError` for building the
      agent or logging in, `createRecordError` for publishing. */
  datatype Client = Client(sessionError: Option<string>, createRecordError: Option<string>)

  /** The outcome of one invocation and the records it published. */
  datatype Invocation = Invocation(result: Result<Response, string>, published: seq<RecordData>)

  function Skip(): Invocation {
    Invocation(Success(SUCCESS), [])
  }

  /** `function_handler` after the credentials are read and the payload is
      decoded; `payload` is `None` when `payload()` yields no payload. */
  function Handle(payload: Option<RawEvent>, client: Client): (out: Invocation)
    ensures |out.published| <= 1
    ensures out.result.Success? ==> out.result.value == SUCCESS
  {
    match payload
    case None => Invocation(Failure(NO_PAYLOAD_ERROR), [])
    case Some(event) =>
      match event.incident
      case None => Skip()
      case Some(raw) =>
        var incident := Decode(raw);
        if incident.backfilled then Skip()
        else if client.sessionError.Some? then Invocation(Failure(client.sessionError.value), [])
        else
          match PostBuilder.BuildRecord(incident)
          case Failure(e) => Invocation(Failure(e), [])
          case Success(rec) =>
            if client.createRecordError.Some? then Invocation(Failure(client.createRecordError.value), [rec])
            else Invocation(Success(SUCCESS), [rec])
  }

  /** The incident whose post the gate lets through, if any. */
  predicate Publishable(payload: Option<RawEvent>) {
    && payload.Some?
    && payload.value.incident.Some?
    && !Decode(payload.value.incident.value).backfilled
    && |payload.value.incident.value.incidentUpdates| > 0
  }

  // ---------------------------------------------------------------------
  // Properties of the gate

  /** A request from which no payload is decoded fails and publishes
      nothing. */
  lemma NoPayloadFails(client: Client)
    ensures Handle(None, client).result == Failure(NO_PAYLOAD_ERROR)
    ensures Handle(None, client).published == []
  {
  }

  /** An event without incident details is a silent success. */
  lemma AbsentIncidentIsSkipped(client: Client)
    ensures Handle(Some(RawEvent(None)), client) == Invocation(Success(SUCCESS), [])
  {
  }

  /** A backfilled incident is a silent success, whatever its updates and
      whatever the client would do. */
  lemma BackfilledIsSkipped(raw: RawIncident, client: Client)
    requires raw.backfilled == Some(true)
    ensures Handle(Some(RawEvent(Some(raw))), client) == Invocation(Success(SUCCESS), [])
  {
  }

  /** A live incident without updates fails and publishes nothing. */
  lemma NoUpdatesFails(raw: RawIncident, client: Client)
    requires raw.backfilled != Some(true) && |raw.incidentUpdates| == 0
    ensures Handle(Some(RawEvent(Some(raw))), client).result.Failure?
    ensures client.sessionError.None? ==>
      Handle(Some(RawEvent(Some(raw))), client).result == Failure(PostBuilder.NO_UPDATES_ERROR)
    ensures Handle(Some(RawEvent(Some(raw))), client).published == []
  {
  }

  /** A live incident with updates, once logged in, is built and handed to
      `create_record` exactly once; the invocation succeeds exactly when
      publishing does. */
  lemma LiveIncidentIsPublishedOnce(raw: RawIncident, client: Client)
    requires raw.backfilled != Some(true) && |raw.incidentUpdates| > 0
    requires client.sessionError.None?
    ensures PostBuilder.BuildRecord(Decode(raw)).Success?
    ensures Handle(Some(RawEvent(Some(raw))), client).published == [PostBuilder.BuildRecord(Decode(raw)).value]
    ensures Handle(Some(RawEvent(Some(raw))), client).result.Success? <==> client.createRecordError.None?
  {
  }

  /** At most one record is published, and one is published exactly when
      the gate lets a live incident with updates through and the session
      is established; that record is the one the builder makes. */
  lemma PublishesAtMostOnce(payload: Option<RawEvent>, client: Client)
    ensures |Handle(payload, client).published| == 1 <==> Publishable(payload) && client.sessionError.None?
    ensures |Handle(payload, client).published| == 1 ==>
      Handle(payload, client).published[0] == PostBuilder.BuildRecord(Decode(payload.value.incident.value)).value
  {
  }

  /** Skips are successes: the invocation fails only for a missing payload, a
      failed session, a live incident without updates or a failed
      publication. */
  lemma FailsOnlyOnErrors(payload: Option<RawEvent>, client: Client)
    ensures Handle(payload, client).result.Failure? <==>
      || payload.None?
      || (&& payload.value.incident.Some?
          && !Decode(payload.value.incident.value).backfilled
          && (|| client.sessionError.Some?
              || |payload.value.incident.value.incidentUpdates| == 0
              || client.createRecordError.Some?))
  {
  }

  /** An incident delivered live and then replayed as backfilled is
      published at most once over the two deliveries. */
  lemma ReplayPublishesNothingMore(raw: RawIncident, client1: Client, client2: Client)
    ensures Handle(Some(RawEvent(Some(raw.(backfilled := Some(true))))), client2).published == []
    ensures |Handle(Some(RawEvent(Some(raw))), client1).published
             + Handle(Some(RawEvent(Some(raw.(backfilled := Some(true))))), client2).published| <= 1
  {
    PublishesAtMostOnce(Some(RawEvent(Some(raw))), client1);
  }

  /** A live incident with one update, "investigating". */
  lemma ScenarioSingleUpdate(client: Client)
    requires client.sessionError.None? && client.createRecordError.None?
    ensures var raw := RawIncident(Some(false), "investigating", "https://status.example/1",
                                   [IncidentUpdate("We are investigating.", 1704067200)], "API outage");
      && Handle(Some(RawEvent(Some(raw))), client).result == Success(SUCCESS)
      && |Handle(Some(RawEvent(Some(raw))), client).published| == 1
      && Handle(Some(RawEvent(Some(raw))), client).published[0].text == "[update] Investigating: We are investigating."
      && Handle(Some(RawEvent(Some(raw))), client).published[0].embed
         == Some(External(ExternalData("We are investigating.", None, "API outage", "https://status.example/1")))
  {
    var raw := RawIncident(Some(false), "investigating", "https://status.example/1",
                           [IncidentUpdate("We are investigating.", 1704067200)], "API outage");
    LiveIncidentIsPublishedOnce(raw, client);
    PostBuilder.BuildRecordFields(Decode(raw), 0);
    PostBuilder.PostTextExample(raw.status, raw.incidentUpdates[0].body);
  }
}
