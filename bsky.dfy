/** The parts of the social network's post schema (`app.bsky.feed.post`
    and `app.bsky.embed.external`) that the post builder fills in
    (src/main.rs, lines 55-86). Timestamps are instants, as in
    `Statuspage`. Library types of the fields the builder leaves empty are
    reduced to a few identifying fields. */
module Bsky {
  import opened Wrappers

  /** A reference to an uploaded blob (the link-preview thumbnail). */
  datatype BlobRef = BlobRef(cid: string)

  /** `app.bsky.embed.external#external`: a link preview. */
  datatype ExternalData = ExternalData(
    description: string,
    thumb: Option<BlobRef>,
    title: string,
    uri: string)

  /** The embed union; the builder only ever produces the external-link
      variant `AppBskyEmbedExternalMain`. */
  datatype Embed = External(external: ExternalData)

  datatype Entity = Entity(kind: string, value: string)
  datatype Facet = Facet(byteStart: nat, byteEnd: nat)
  datatype SelfLabel = SelfLabel(val: string)
  datatype ReplyRef = ReplyRef(parentUri: string, rootUri: string)

  /** `app.bsky.feed.post`'s `RecordData`. */
  datatype RecordData = RecordData(
    createdAt: int,
    embed: Option<Embed>,
    entities: Option<seq<Entity>>,
    facets: Option<seq<Facet>>,
    labels: Option<seq<SelfLabel>>,
    langs: Option<seq<string>>,
    reply: Option<ReplyRef>,
    tags: Option<seq<string>>,
    text: string)
}
