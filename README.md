# statuspage-bsky-sync, modelled in Dafny

A status page posts an incident webhook; the function picks the newest
update of the incident, cuts its body to 250 characters, and publishes a
Bluesky post: `"[update] <Title-cased status>: <body>"` with a link preview
(title = incident name, description = the cut body, uri = the incident's
short link), timestamped with the update's `display_at` and tagged `en`.
Events without an incident and backfilled incidents are skipped silently.

Files and modules:

- `wrappers.dfy` (`Wrappers`): `Option` and `Result`.
- `statuspage.dfy` (`Statuspage`): the decoded webhook payload and the
  `backfilled` default.
- `bsky.dfy` (`Bsky`): the post record and its external-link embed.
- `casing.dfy` (`Casing`): title casing of the status, for statuses split at `_`, `-` and spaces with ASCII case mapping (Statuspage statuses such as `in_progress`).
- `post_builder.dfy` (`PostBuilder`): `TryFrom<StatuspageIncident> for
  RecordData`. `BuildRecord` is the specification (stable newest-first sort
  of a copy, head, truncation, record); `TryFrom` is the imperative form
  (a selection loop and a truncation loop) proved equal to it.
- `handler.dfy` (`Handler`): the gate of `function_handler`, as a function
  of the decoded payload and of what the client's steps return;
  `published` lists every record handed to `create_record`.

Modelling choices: `Datetime` values are the instants they denote, as
`int`, ordered as integers; strings are `seq<char>`, one element per
Unicode scalar value, as Rust's `chars()` yields them; errors are their
messages.

Two points where the model follows the code of src/main.rs over a tidier
reading of its intent: a request from which `payload()` yields no payload
(no or a non-JSON, non-form content type) is the single error "No payload
provided" (a body that does not decode is a decoding error, outside the
model), and the agent is built and logged in *before* the record is built,
so for a live incident without updates a failed login is reported instead
of "No incident update information provided". The code title-cases the
status and stamps the post with the update's `display_at`, not the clock;
the model does the same.

## Model

| member | source | states |
|---|---|---|
| Statuspage.Decode | src/main.rs:20-28 | `backfilled` is true exactly when the payload says `true`; omitted means false; other fields copied |
| Casing.ToUpper | src/main.rs:83 | a lower-case ASCII letter becomes the upper-case letter 32 code points below; every other character is kept (ASCII case mapping only) |
| Casing.ToLower | src/main.rs:83 | an upper-case ASCII letter becomes the lower-case letter 32 code points above; every other character is kept (ASCII case mapping only) |
| Casing.Capitalize | src/main.rs:83 | a capitalized word keeps its length (ASCII case mapping); its characters are given by `Casing.CapitalizeAt` |
| Casing.SplitWords | src/main.rs:83 | the words of the status are non-empty and free of `_`, `-` and spaces; which words they are is fixed by the four lemmas below |
| Casing.SplitWordsKeepsLetters | src/main.rs:83 | the words put back together are the status with its delimiters removed: no letter lost, invented or reordered |
| Casing.SplitWordsSkipsDelimiter | src/main.rs:83 | a leading delimiter produces no word |
| Casing.SplitWordsOfWord | src/main.rs:83 | a status free of `_`, `-` and spaces is one word (the model's only boundaries) |
| Casing.SplitWordsAtDelimiter | src/main.rs:83 | a run free of `_`, `-` and spaces ended by one of them is the first word, followed by the words of the rest |
| Casing.TitleCase | src/main.rs:83 | `Case::Title` for a status split only at `_`, `-` and spaces, with ASCII case mapping; its properties are the Casing lemmas listed here (no `_` or `-`, never longer, one-, two- and many-word results) |
| Casing.TitleCaseOfTwoWords | src/main.rs:83 | two words free of `_`, `-` and spaces, joined by one of them, are each capitalized and joined by one space |
| Casing.TitleCaseAtDelimiter | src/main.rs:83 | a leading word ended by `_`, `-` or a space is capitalized and joined by one space to the title-cased rest, for any number of further words |
| Casing.TitleCaseTwoWordExample | src/main.rs:83 | `"in_progress"` becomes `"In Progress"` |
| Casing.CapitalizeAt | src/main.rs:83 | a capitalized word keeps its length, its first letter is upper-cased and the rest lower-cased |
| Casing.TitleCaseHasNoUnderscoreOrHyphen | src/main.rs:83 | a title-cased status holds no `_` and no `-` |
| Casing.TitleCaseLength | src/main.rs:83 | for a status split only at `_`, `-` and spaces, with ASCII case mapping, title casing never lengthens it |
| Casing.TitleCaseOfLowerCaseWord | src/main.rs:83 | a single lower-case word free of `_`, `-` and spaces only gets its first letter upper-cased (ASCII case mapping) |
| Casing.TitleCaseExample | src/main.rs:83 | `"investigating"` becomes `"Investigating"` |
| PostBuilder.Insert | src/main.rs:45 | inserting into a newest-first sequence keeps it newest-first and adds exactly the element |
| PostBuilder.StableSortDesc | src/main.rs:44-45 | the sorted copy is newest-first and a permutation of the updates |
| PostBuilder.SortedLength | src/main.rs:44-45 | the sorted copy has as many updates as the input |
| PostBuilder.LatestExists | src/main.rs:47-49 | a non-empty update list has a newest update |
| PostBuilder.LatestIsUnique | src/main.rs:44-48 | the first newest position is unique |
| PostBuilder.SortedHeadIsLatest | src/main.rs:44-48 | the head of the sorted copy has the maximal `display_at`, and among equal maxima it is the earliest in input order |
| PostBuilder.LatestUpdate | src/main.rs:44-49 | none exactly for an empty list; otherwise the update at the first position with the maximal `display_at`, equal to the head of the sorted copy |
| PostBuilder.TruncatedBody | src/main.rs:50-53 | at most 253 characters; a body of at most 250 is kept unchanged; a longer one becomes its first 250 characters followed by `...` |
| PostBuilder.TruncationIdempotent | src/main.rs:50-53 | cutting an already cut body changes nothing |
| PostBuilder.Truncate | src/main.rs:50-53 | the take-250-then-maybe-append loop yields the short body unchanged or the first 250 characters plus `...` |
| PostBuilder.PostText | src/main.rs:81-85 | the text starts with `[update] ` and ends with the cut body, after at least the prefix and `: ` |
| PostBuilder.MakeRecord | src/main.rs:55-86 | the embed exists and its description is the update text that ends the post text; the other fields are given by `PostBuilder.BuildRecordFields` |
| PostBuilder.TryFrom | src/main.rs:40-88 | fails exactly when there are no updates, and otherwise returns exactly the record of `PostBuilder.BuildRecord` |
| PostBuilder.BuildRecord | src/main.rs:40-88 | fails exactly for an empty update list, with "No incident update information provided"; the record's fields are given by `PostBuilder.BuildRecordFields` and `PostBuilder.CreatedAtIsNewest` |
| PostBuilder.BuildRecordFields | src/main.rs:55-86 | created_at, text, embed (description, no thumb, title, uri), langs `["en"]` and the absent fields of the record built from the newest update |
| PostBuilder.CreatedAtIsNewest | src/main.rs:44-73 | the post's timestamp is that of the newest update, and no update is newer |
| PostBuilder.EmbedRepeatsPostText | src/main.rs:55-85 | the embed's description is the very text that ends the post |
| PostBuilder.PostTextLength | src/main.rs:50-85 | for a status split only at `_`, `-` and spaces, with ASCII case mapping, the post text is no longer than prefix + status + separator + 253 |
| PostBuilder.PostTextExample | src/main.rs:81-85 | an "investigating" update reads `[update] Investigating: We are investigating.` |
| PostBuilder.LaterUpdateWins | src/main.rs:44-49 | of two updates the later one is posted whatever the list order |
| PostBuilder.TieGoesToFirst | src/main.rs:44-48 | of two updates with the same timestamp the first in the list is posted |
| PostBuilder.LongBodyExample | src/main.rs:50-53 | 300 letters become 250 letters and `...` |
| Handler.Handle | src/main.rs:94-117 | at most one record is published and every success is the 200 `Success` response; the gate's cases are the Handler lemmas below |
| Handler.NoPayloadFails | src/main.rs:94-96 | a request from which no payload is decoded fails with "No payload provided" and publishes nothing |
| Handler.AbsentIncidentIsSkipped | src/main.rs:98-110 | an event without incident succeeds and publishes nothing |
| Handler.BackfilledIsSkipped | src/main.rs:98-100 | a backfilled incident succeeds and publishes nothing, whatever its content and the client |
| Handler.NoUpdatesFails | src/main.rs:101-106 | a live incident without updates fails and publishes nothing |
| Handler.LiveIncidentIsPublishedOnce | src/main.rs:101-106 | once logged in, a live incident with updates is built and published exactly once; success exactly when publishing succeeds |
| Handler.PublishesAtMostOnce | src/main.rs:98-110 | at most one record is published, one exactly when the incident is present, live, has updates and the session is up, and it is the built record |
| Handler.FailsOnlyOnErrors | src/main.rs:94-117 | the invocation fails exactly for a missing payload, or a live incident with a failed session, no updates or a failed publication |
| Handler.ReplayPublishesNothingMore | src/main.rs:98-107 | a live delivery and its backfilled replay publish at most one record in all |
| Handler.ScenarioSingleUpdate | src/main.rs:40-110 | a one-update "investigating" incident publishes one post with the expected text and link preview |

## Left out

- Reading `BSKY_USERNAME` and `BSKY_PASSWORD` from the environment (src/main.rs:91-92): process-global input; the model starts after it.
- JSON decoding of the request and ISO-8601 parsing of `display_at` (src/main.rs:30-38, 94-96): library code; the model takes the decoded payload, or `None` when `payload()` yields no payload.
- `BskyAgent::builder`, `login` and `create_record` (src/main.rs:102-106): network calls; `Handler.Client` holds only what each step would return.
- The failure path of the HTTP response builder (`map_err`, src/main.rs:116), which cannot be taken for the fixed status, header and body; the response itself is `Handler.SUCCESS`.
- Logging (src/main.rs:100, 109, 123) and the runtime bootstrap (src/main.rs:120-126): no logic.
- `Ipld::Null` extra data and `Language::new("en").unwrap()` (src/main.rs:65, 68, 71): schema plumbing; the language is the string `"en"`.
- PostBuilder.LatestUpdate: the source sorts a clone of the update vector in place and reads its first element; the method scans for that element instead, and the sorted copy exists only as the function `StableSortDesc`.
- PostBuilder.StableSortDesc: its contract states newest-first order and a permutation only; that ties stay in input order is proved for the head alone (`PostBuilder.SortedHeadIsLatest`), not for the whole sorted copy.
- PostBuilder.SortedHeadIsLatest: stability is stated for the head of the sorted copy, the only element the source reads, not for the order of the remaining elements.
- Casing.SplitWords: starts a word only after `_`, `-` or a space; `convert_case`'s other default boundaries (lower-to-upper as in `inProgress`, letter-to-digit as in `level2`, acronyms) are not modelled, so a status using them is cased differently from the program.
- Casing.SplitWordsOfWord: the same boundary gap; `inProgress` or `level2` is one word here and two in the program.
- Casing.SplitWordsAtDelimiter: the same boundary gap; a first run such as `fooBar` is one word here and two in the program.
- Casing.TitleCase: the same boundary gap, and the ASCII-only case mapping below; `inProgress` becomes `Inprogress` here and `In Progress` in the program.
- Casing.TitleCaseOfTwoWords: the same boundary gap; a camel-case or digit-bearing word gives more than two words in the program.
- Casing.TitleCaseAtDelimiter: the same boundary gap; the leading word may itself be several words in the program.
- Casing.TitleCaseOfLowerCaseWord: the same boundary gap and ASCII-only case mapping; the program turns `level2` into `Level 2` and upper-cases a non-ASCII first letter.
- Casing.TitleCaseLength: the bound holds only for the model's delimiters and ASCII casing; in the program `inProgress` becomes `In Progress` and a leading `ß` becomes `SS`, both longer.
- PostBuilder.PostTextLength: inherits the gap of `Casing.TitleCaseLength`; for such statuses the program's post text can exceed the stated bound.
- Casing.CapitalizeAt: upper- and lower-cases ASCII letters only; Unicode case mappings (`é` to `É`, `ß` to `SS`) are not modelled, and a non-ASCII letter is kept as it is.
- Casing.ToUpper: ASCII letters only; the program's `to_uppercase` also maps `é` to `É` and `ß` to `SS`, which this keeps.
- Casing.ToLower: ASCII letters only; the program's `to_lowercase` also maps `É` to `é`, which this keeps.
- Casing.Capitalize: ASCII letters only; a non-ASCII first letter or remainder is not re-cased as `convert_case` does.
- Bsky: the other embed variants and the library types of `entities`, `facets`, `labels`, `reply` and `tags` are reduced to small placeholders; the builder leaves them all empty.
