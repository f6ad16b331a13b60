/** The webhook payload sent by the status page (src/main.rs, lines 15-38),
    after JSON decoding. Timestamps (`display_at`) are modelled by the
    instant they denote, as an `int`; the order on `Datetime` is the order
    on these integers. */
module Statuspage {
  import opened Wrappers

  /** One entry of `incident_updates`. */
  datatype IncidentUpdate = IncidentUpdate(body: string, displayAt: int)

  /** An incident as the handler sees it, with `backfilled` already
      defaulted. */
  datatype Incident = Incident(
    backfilled: bool,
    status: string,
    shortlink: string,
    incidentUpdates: seq<IncidentUpdate>,
    name: string)

  /** An incident as it arrives on the wire: `backfilled` may be omitted. */
  datatype RawIncident = RawIncident(
    backfilled: Option<bool>,
    status: string,
    shortlink: string,
    incidentUpdates: seq<IncidentUpdate>,
    name: string)

  /** The top-level event; `incident` may be absent or null. */
  datatype RawEvent = RawEvent(incident: Option<RawIncident>)

  /** Field-for-field decoding of an incident, where an omitted
      `backfilled` takes `bool::default()`, that is `false`. */
  function Decode(raw: RawIncident): (i: Incident)
    ensures i.backfilled <==> raw.backfilled == Some(true)
    ensures raw.backfilled == None ==> !i.backfilled
    ensures i.status == raw.status && i.shortlink == raw.shortlink
    ensures i.incidentUpdates == raw.incidentUpdates && i.name == raw.name
  {
    Incident(raw.backfilled.GetOr(false), raw.status, raw.shortlink,
             raw.incidentUpdates, raw.name)
  }
}
