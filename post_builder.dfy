/** The incident-to-post transformation, `TryFrom<StatuspageIncident> for
    RecordData` (src/main.rs, lines 40-88). `BuildRecord` is the
    specification: sort a copy of the updates newest first with a stable
    sort, take the head, truncate its body and fill in the post record.
    `TryFrom` is the imperative form, with the selection and the
    truncation written as loops, and is proved to agree with it. */
module PostBuilder {
  import opened Wrappers
  import opened Statuspage
  import opened Bsky
  import Casing

  /** Characters of the update body kept in the post. */
  const MAX_BODY_CHARS: nat := 250
  /** Marker appended to a body that was cut. */
  const ELLIPSIS: string := "..."
  const TEXT_PREFIX: string := "[update] "
  const STATUS_SEPARATOR: string := ": "
  const LANGUAGE: string := "en"
  const NO_UPDATES_ERROR: string := "No incident update information provided"

  // ---------------------------------------------------------------------
  // Ordering the updates

  /** Newest first. */
  predicate SortedDesc(s: seq<IncidentUpdate>) {
    forall i, j :: 0 <= i < j < |s| ==> s[i].displayAt >= s[j].displayAt
  }

  /** No update of `s` is newer than `d`. */
  predicate NoneNewerThan(s: seq<IncidentUpdate>, d: int) {
    forall k :: 0 <= k < |s| ==> s[k].displayAt <= d
  }

  /** An update no newer than every update of a newest-first sequence may
      go in front of it. */
  lemma ConsSorted(h: IncidentUpdate, t: seq<IncidentUpdate>)
    requires SortedDesc(t) && NoneNewerThan(t, h.displayAt)
    ensures SortedDesc([h] + t)
  {
    var r := [h] + t;
    forall i, j | 0 <= i < j < |r| ensures r[i].displayAt >= r[j].displayAt {
      assert r[j] == t[j - 1];
      if i > 0 {
        assert r[i] == t[i - 1];
      }
    }
  }

  /** A bound on the updates of `s` and on `x` bounds every
      rearrangement of them. */
  lemma BoundOfRearrangement(t: seq<IncidentUpdate>, s: seq<IncidentUpdate>, x: IncidentUpdate, d: int)
    requires multiset(t) == multiset(s) + multiset{x}
    requires NoneNewerThan(s, d) && x.displayAt <= d
    ensures NoneNewerThan(t, d)
  {
    forall k | 0 <= k < |t| ensures t[k].displayAt <= d {
      assert t[k] in multiset(t);
      if t[k] != x {
        assert t[k] in multiset(s);
        var i :| 0 <= i < |s| && s[i] == t[k];
      }
    }
  }

  /** Inserts `x` into a newest-first sequence in front of every update
      that is not newer than it, so that `x`, which precedes the elements of
      `s` in the input, also precedes those with an equal timestamp. */
  function Insert(x: IncidentUpdate, s: seq<IncidentUpdate>): (r: seq<IncidentUpdate>)
    requires SortedDesc(s)
    ensures SortedDesc(r)
    ensures multiset(r) == multiset(s) + multiset{x}
  {
    if s == [] then [x]
    else if s[0].displayAt > x.displayAt then
      var t := Insert(x, s[1..]);
      assert s == [s[0]] + s[1..];
      BoundOfRearrangement(t, s[1..], x, s[0].displayAt);
      ConsSorted(s[0], t);
      [s[0]] + t
    else
      ConsSorted(x, s);
      [x] + s
  }

  /** `sort_by` with the comparator `update2.display_at.cmp(&update1.display_at)`:
      a stable sort, newest first. */
  function StableSortDesc(s: seq<IncidentUpdate>): (r: seq<IncidentUpdate>)
    ensures SortedDesc(r)
    ensures multiset(r) == multiset(s)
  {
    if s == [] then []
    else
      assert s == [s[0]] + s[1..];
      Insert(s[0], StableSortDesc(s[1..]))
  }

  /** `k` is the position of the newest update, the first one when several
      share the newest timestamp. */
  ghost predicate IsLatestAt(s: seq<IncidentUpdate>, k: int) {
    && 0 <= k < |s|
    && (forall j :: 0 <= j < |s| ==> s[j].displayAt <= s[k].displayAt)
    && (forall j :: 0 <= j < k ==> s[j].displayAt < s[k].displayAt)
  }

  /** Only one position is the latest one. */
  lemma LatestIsUnique(s: seq<IncidentUpdate>, k1: int, k2: int)
    requires IsLatestAt(s, k1) && IsLatestAt(s, k2)
    ensures k1 == k2
  {
    assert s[k1].displayAt == s[k2].displayAt;
  }

  /** Every non-empty list of updates has a latest one. */
  lemma {:induction false} LatestExists(s: seq<IncidentUpdate>)
    requires |s| > 0
    ensures exists k :: IsLatestAt(s, k)
  {
    if |s| == 1 {
      assert IsLatestAt(s, 0);
    } else {
      LatestExists(s[1..]);
      var k' :| IsLatestAt(s[1..], k');
      if s[0].displayAt >= s[1..][k'].displayAt {
        assert IsLatestAt(s, 0);
      } else {
        assert IsLatestAt(s, k' + 1);
      }
    }
  }

  /** The head of the stably sorted copy is the first of the newest
      updates: the maximum by `display_at`, ties broken by input order. */
  lemma {:induction false} SortedHeadIsLatest(s: seq<IncidentUpdate>, k: int)
    requires IsLatestAt(s, k)
    ensures StableSortDesc(s)[0] == s[k]
  {
    var rest := s[1..];
    var t := StableSortDesc(rest);
    assert StableSortDesc(s) == Insert(s[0], t);
    if |s| == 1 {
      assert t == [];
    } else {
      LatestExists(rest);
      var k' :| IsLatestAt(rest, k');
      SortedHeadIsLatest(rest, k');
      assert t[0] == rest[k'] == s[k' + 1];
      if s[0].displayAt >= s[k].displayAt {
        assert k == 0;
        assert Insert(s[0], t)[0] == s[0];
      } else {
        assert IsLatestAt(rest, k - 1);
        LatestIsUnique(rest, k - 1, k');
        assert Insert(s[0], t)[0] == t[0];
      }
    }
  }

  /** Sorting keeps the number of updates. */
  lemma SortedLength(s: seq<IncidentUpdate>)
    ensures |StableSortDesc(s)| == |s|
  {
    assert |multiset(StableSortDesc(s))| == |multiset(s)|;
  }

  /** Finds the newest update the way the source's sorted copy presents
      it: one pass that keeps the first strictly newer update it meets. */
  method LatestUpdate(updates: seq<IncidentUpdate>) returns (latest: Option<IncidentUpdate>, index: nat)
    ensures latest.None? <==> |updates| == 0
    ensures latest.Some? ==> IsLatestAt(updates, index) && latest.value == updates[index]
    ensures latest.Some? ==> latest.value == StableSortDesc(updates)[0]
  {
    if |updates| == 0 {
      return None, 0;
    }
    var best := 0;
    var i := 1;
    while i < |updates|
      invariant 1 <= i <= |updates|
      invariant 0 <= best < i
      invariant forall j :: 0 <= j < i ==> updates[j].displayAt <= updates[best].displayAt
      invariant forall j :: 0 <= j < best ==> updates[j].displayAt < updates[best].displayAt
    {
      if updates[i].displayAt > updates[best].displayAt {
        best := i;
      }
      i := i + 1;
    }
    assert IsLatestAt(updates, best);
    SortedHeadIsLatest(updates, best);
    latest, index := Some(updates[best]), best;
  }

  // ---------------------------------------------------------------------
  // Truncating the body

  /** The body cut to `MAX_BODY_CHARS` characters, with `ELLIPSIS` appended
      exactly when something was cut. */
  function TruncatedBody(body: string): (r: string)
    ensures |r| <= MAX_BODY_CHARS + |ELLIPSIS|
    ensures |body| <= MAX_BODY_CHARS ==> r == body
    ensures |body| > MAX_BODY_CHARS ==> |r| == MAX_BODY_CHARS + |ELLIPSIS|
    ensures |body| > MAX_BODY_CHARS ==> r[..MAX_BODY_CHARS] == body[..MAX_BODY_CHARS]
    ensures |body| > MAX_BODY_CHARS ==> r[MAX_BODY_CHARS..] == ELLIPSIS
  {
    if |body| > MAX_BODY_CHARS then body[..MAX_BODY_CHARS] + ELLIPSIS else body
  }

  /** Cutting an already cut body changes nothing. */
  lemma TruncationIdempotent(body: string)
    ensures TruncatedBody(TruncatedBody(body)) == TruncatedBody(body)
  {
    var t := TruncatedBody(body);
    if |body| > MAX_BODY_CHARS {
      assert t == t[..MAX_BODY_CHARS] + t[MAX_BODY_CHARS..];
    }
  }

  /** `body.chars().take(250).collect()`, then `"..."` appended when
      `body.chars().count() > 250`. */
  method Truncate(body: string) returns (text: string)
    ensures |body| <= MAX_BODY_CHARS ==> text == body
    ensures |body| > MAX_BODY_CHARS ==> text == body[..MAX_BODY_CHARS] + ELLIPSIS
    ensures text == TruncatedBody(body)
  {
    text := [];
    var i := 0;
    while i < |body| && i < MAX_BODY_CHARS
      invariant 0 <= i <= |body| && i <= MAX_BODY_CHARS
      invariant text == body[..i]
    {
      text := text + [body[i]];
      i := i + 1;
    }
    if |body| > MAX_BODY_CHARS {
      text := text + ELLIPSIS;
    }
  }

  // ---------------------------------------------------------------------
  // Building the record

  /** `"[update] {}: {}"` with the title-cased status and the cut body. */
  function PostText(status: string, updateText: string): (r: string)
    ensures |r| >= |TEXT_PREFIX| + |STATUS_SEPARATOR| + |updateText|
    ensures r[..|TEXT_PREFIX|] == TEXT_PREFIX
    ensures r[|r| - |updateText|..] == updateText
  {
    TEXT_PREFIX + Casing.TitleCase(status) + STATUS_SEPARATOR + updateText
  }

  /** The record for `incident` once the latest update and its cut text
      are known. */
  function MakeRecord(incident: Incident, latest: IncidentUpdate, updateText: string): (r: RecordData)
    ensures r.embed.Some? && r.embed.value.external.description == updateText
    ensures |r.text| >= |updateText| && r.text[|r.text| - |updateText|..] == r.embed.value.external.description
  {
    RecordData(
      createdAt := latest.displayAt,
      embed := Some(External(ExternalData(
        description := updateText,
        thumb := None,
        title := incident.name,
        uri := incident.shortlink))),
      entities := None,
      facets := None,
      labels := None,
      langs := Some([LANGUAGE]),
      reply := None,
      tags := None,
      text := PostText(incident.status, updateText))
  }

  /** `RecordData::try_from(incident)`: an incident without updates is an
      error with the source's message, and one with updates always yields a
      record. */
  function BuildRecord(incident: Incident): (r: Result<RecordData, string>)
    ensures r.Failure? <==> |incident.incidentUpdates| == 0
    ensures r.Failure? ==> r.error == NO_UPDATES_ERROR
  {
    SortedLength(incident.incidentUpdates);
    var sorted := StableSortDesc(incident.incidentUpdates);
    if |sorted| == 0 then Failure(NO_UPDATES_ERROR)
    else
      var latest := sorted[0];
      Success(MakeRecord(incident, latest, TruncatedBody(latest.body)))
  }

  /** The imperative form of `try_from`: pick the latest update, cut its
      body, fill in the record. */
  method TryFrom(incident: Incident) returns (r: Result<RecordData, string>)
    ensures r.Failure? <==> |incident.incidentUpdates| == 0
    ensures r == BuildRecord(incident)
  {
    SortedLength(incident.incidentUpdates);
    var latest, _ := LatestUpdate(incident.incidentUpdates);
    if latest.None? {
      return Failure(NO_UPDATES_ERROR);
    }
    var update := latest.value;
    var updateText := Truncate(update.body);
    r := Success(MakeRecord(incident, update, updateText));
  }

  // ---------------------------------------------------------------------
  // Properties of the built record

  /** Field by field, the record built from an incident whose latest update
      is at position `k`. */
  lemma BuildRecordFields(incident: Incident, k: int)
    requires IsLatestAt(incident.incidentUpdates, k)
    ensures var u := incident.incidentUpdates[k];
      && BuildRecord(incident).Success?
      && var rec := BuildRecord(incident).value;
      && rec.createdAt == u.displayAt
      && rec.text == TEXT_PREFIX + Casing.TitleCase(incident.status) + STATUS_SEPARATOR + TruncatedBody(u.body)
      && rec.embed == Some(External(ExternalData(TruncatedBody(u.body), None, incident.name, incident.shortlink)))
      && rec.langs == Some(["en"])
      && rec.entities.None? && rec.facets.None? && rec.labels.None?
      && rec.reply.None? && rec.tags.None?
  {
    SortedLength(incident.incidentUpdates);
    SortedHeadIsLatest(incident.incidentUpdates, k);
  }

  /** The post's timestamp is that of an update of the incident, and no
      update is newer. */
  lemma CreatedAtIsNewest(incident: Incident)
    requires BuildRecord(incident).Success?
    ensures exists k :: (IsLatestAt(incident.incidentUpdates, k)
      && BuildRecord(incident).value.createdAt == incident.incidentUpdates[k].displayAt)
    ensures forall u :: u in incident.incidentUpdates ==> u.displayAt <= BuildRecord(incident).value.createdAt
  {
    LatestExists(incident.incidentUpdates);
    var k :| IsLatestAt(incident.incidentUpdates, k);
    BuildRecordFields(incident, k);
  }

  /** The link preview repeats the very text that ends the post. */
  lemma EmbedRepeatsPostText(incident: Incident)
    requires BuildRecord(incident).Success?
    ensures var rec := BuildRecord(incident).value;
      && rec.embed.Some?
      && rec.text == TEXT_PREFIX + Casing.TitleCase(incident.status) + STATUS_SEPARATOR
                     + rec.embed.value.external.description
  {
  }

  /** The post text is bounded by the prefix, the status and the cut body. */
  lemma PostTextLength(incident: Incident)
    requires BuildRecord(incident).Success?
    ensures |BuildRecord(incident).value.text|
            <= |TEXT_PREFIX| + |incident.status| + |STATUS_SEPARATOR| + MAX_BODY_CHARS + |ELLIPSIS|
  {
    Casing.TitleCaseLength(incident.status);
  }

  /** The text of the post for an "investigating" update. */
  lemma PostTextExample(status: string, body: string)
    requires status == "investigating" && body == "We are investigating."
    ensures PostText(status, body) == "[update] Investigating: We are investigating."
  {
    var title := Casing.TitleCase(status);
    assert title == "Investigating" by {
      Casing.TitleCaseExample(status);
    }
    assert PostText(status, body) == TEXT_PREFIX + title + STATUS_SEPARATOR + body;
    ComposedTextExample(title, body);
  }

  /** The literal concatenation step of `PostTextExample`: the prefix, the
      title-cased status, the separator and the body spell the post. */
  lemma ComposedTextExample(title: string, body: string)
    requires title == "Investigating" && body == "We are investigating."
    ensures TEXT_PREFIX + title + STATUS_SEPARATOR + body == "[update] Investigating: We are investigating."
  {
  }

  /** Of two updates the later one is chosen, whichever comes first in the
      list. */
  lemma LaterUpdateWins(incident: Incident, earlier: IncidentUpdate, later: IncidentUpdate)
    requires earlier.displayAt < later.displayAt
    requires incident.incidentUpdates == [earlier, later] || incident.incidentUpdates == [later, earlier]
    ensures BuildRecord(incident).Success?
    ensures BuildRecord(incident).value.createdAt == later.displayAt
    ensures BuildRecord(incident).value.embed.value.external.description == TruncatedBody(later.body)
  {
    if incident.incidentUpdates == [earlier, later] {
      BuildRecordFields(incident, 1);
    } else {
      BuildRecordFields(incident, 0);
    }
  }

  /** Of two updates with the same timestamp the first in the list is
      chosen: the sort is stable. */
  lemma TieGoesToFirst(incident: Incident, first: IncidentUpdate, second: IncidentUpdate)
    requires first.displayAt == second.displayAt
    requires incident.incidentUpdates == [first, second]
    ensures BuildRecord(incident).Success?
    ensures BuildRecord(incident).value.embed.value.external.description == TruncatedBody(first.body)
  {
    BuildRecordFields(incident, 0);
  }

  /** A body of 300 letters is cut to its first 250 followed by `"..."`. */
  lemma LongBodyExample(body: string)
    requires body == seq(300, _ => 'a')
    ensures TruncatedBody(body) == seq(250, _ => 'a') + "..."
  {
    assert body[..MAX_BODY_CHARS] == seq(250, _ => 'a');
  }
}
