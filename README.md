# Focus dashboard transcript pipeline, modelled in Dafny

The dashboard (`app.py`) pulls a bot's chat history from a remote transcript
API page by page and cleans each message. It then rebuilds the conversation
as query/response pairs. This project models the three deterministic pieces
of that pipeline and proves what each promises:

- **the payload normaliser** `clean_kore_text` (`normalizer.dfy`, on top of
  the string operations in `text.dfy`).
  - It unwraps a JSON envelope one level, or replaces an interactive payload
    with the label `[Interactive: <type>]`.
  - It then deletes every match of `<[^>]+>`.
  - Finally it decodes `&nbsp;`, `&amp;` and `&quot;`, in that order, with
    one left-to-right `str.replace` each.
- **the per-message filter and record builder** (`messages.dfy`).
  - A normalised text is kept when it is non-empty, its stripped form is not
    an 8-4-4-4-12 hexadecimal UUID, and its stripped form does not contain
    `@@userdetailspayload@@`.
  - The record stores the unstripped text, the defaults `unknown` and
    `system`, and `USER` exactly for `incoming` messages.
- **the pagination loop of `fetch_data`** (`fetcher.dfy`).
  - The remote API is a given sequence of request outcomes: a response with
    a status and a body, or a connection error.
  - The loop asks for 100 messages at offset `100*k`.
  - It stops on:
    - a page without `moreAvailable: true`;
    - a status other than 200;
    - an undecodable body;
    - a connection error;
    - a message whose processing raises.
  - It returns the kept records in page order, then in-page order.
- **the pair reconstructor** `process_to_pairs` (`pairs.dfy`, with the
  stable sort of `sorting.dfy`).
  - Records are grouped by session, in first-appearance order, and each
    session is sorted by time.
  - A two-state walk (no open pair / open pair) folds the bot turns that
    follow a user turn into that turn's Response, joined with `" \n "`.
  - Pairs opened by the bot, with the query `(Bot Initiated / Welcome)`, are
    dropped.
  - The rest are sorted newest first.

`WalkSession`, `WalkSessions`, `GroupBySession`, `ProcessPage`, `FetchPage`,
`FetchData` and `ProcessToPairs` are methods with the source's loops or loop
bodies. Each is proved against
a specification function:

- `Walk`, the source's walk as a recursive function;
- `Expected`, an independent description of the pairs one session yields;
- `SessionOrder`/`SessionOf`, the grouping;
- `Collect`, the loop over one page;
- `LastPage`/`Gathered`, the pages fetched and the records returned.

Lemmas then relate those functions to the source's promises. The normaliser
and the filter are pure functions.

The modules are `Wrappers` (Option), `Seqs` (a filter-map with its append and
permutation lemmas), `Sorting`, `Text`, `Normalizer`, `Messages`, `Fetcher`
and `Pairs`.

Two details of the code fix what the model promises:

- The loop tests `status_code != 200` (app.py:175), so every status other
  than exactly 200, another 2xx status included, ends it. `Delivered`
  requires exactly 200.
- Each session's chats are sorted with Python's stable `list.sort`
  (app.py:247), which `SortBy` models and `SortByStable` proves stable. The
  final `sort_values` (app.py:284) is not a stable sort, so `ProcessToPairs`
  promises only a newest-first permutation of the pairs.

## Model

| member | source | states |
|---|---|---|
| Text.IsSpace | app.py:127 | no contract of its own: the whitespace class of `str.strip()` (also app.py:206); stated through `Strip` and `StripOf` |
| Text.Strip | app.py:127 | `str.strip()`, used again at app.py:206: the result is the infix of the input between two all-whitespace margins, and neither starts nor ends with whitespace |
| Text.StripOf | app.py:206 | stripping has one answer: whitespace around a core that neither starts nor ends with whitespace strips to exactly that core |
| Text.Contains | app.py:210 | no contract of its own: the `in` test on strings; stated by `Find` (-1 exactly when there is no occurrence) and `ContainsThroughStrip` |
| Text.Replace | app.py:138 | no contract of its own: `str.replace` as a left-to-right scan; stated by `ReplaceAgrees` and `ReplaceNoMatch` |
| Text.Find | app.py:138 | the leftmost occurrence of the pattern, or -1 exactly when it does not occur |
| Text.ReplaceAgrees | app.py:138 | the left-to-right replacement scan equals CPython's find-and-copy `str.replace` on every input |
| Text.ReplaceNoMatch | app.py:138 | a string in which the pattern does not occur is returned unchanged |
| Text.ContainsThroughStrip | app.py:206-210 | for a pattern with no whitespace, occurring in the stripped text is the same as occurring in the text |
| Text.TagLen | app.py:137 | a positive length is a whole match of `<[^>]+>` at the start; zero means no prefix matches |
| Text.StripTags | app.py:137 | the substitution never lengthens the text and introduces no new characters |
| Text.StripTagsLeavesNoTag | app.py:137 | no match of `<[^>]+>` is left in the substituted text |
| Text.StripTagsFixpoint | app.py:137 | the substitution leaves a string unchanged exactly when the string holds no tag |
| Text.StripTagsIdempotent | app.py:137 | substituting twice is substituting once |
| Text.TagNeedsOpen | app.py:137 | a string without `<` holds no tag |
| Text.TagNeedsClose | app.py:137 | a string without `>` holds no tag |
| Text.UnclosedKept | app.py:137 | a `<` with no later `>` survives, together with everything after it, whatever comes before it: the result is the substitution of the text before it followed by the rest unchanged |
| Normalizer.Finish | app.py:137-138 | no contract of its own: the tag substitution and then the three replacements in their fixed order; stated by `FinishUnchanged`, `AmpDecoded`, `NbspAfterAmp`, `DoubleEscapedQuote` and `DoubleEscapedSpace` |
| Normalizer.CleanKoreText | app.py:124-139 | no contract of its own; stated by `CleanEmpty`, `CleanUnwrapsText`, `CleanRaisesOnNonStringText`, `CleanInteractive`, `CleanFallsBack`, `CleanPlainUnchanged` and `TaggedEnvelope` |
| Normalizer.LooksLikeJson | app.py:127 | no contract of its own: `raw_text.strip().startswith("{")`; stated through the JSON-branch lemmas `CleanUnwrapsText`, `CleanRaisesOnNonStringText`, `CleanInteractive` and `TaggedEnvelope`, and the fallback lemmas `CleanFallsBack` and `CleanPlainUnchanged` |
| Normalizer.CleanEmpty | app.py:125 | an absent or empty payload gives `""` |
| Normalizer.CleanUnwrapsText | app.py:127-131 | an envelope with a string "text" gives that string after the finishing pass; it is not decoded again, and the rest of the envelope does not matter |
| Normalizer.CleanRaisesOnNonStringText | app.py:129-137 | a "text" value that is not a string makes the normaliser raise, as `re.sub` does outside the `try` |
| Normalizer.CleanInteractive | app.py:127-133 | an envelope with "payload" and no "text" gives exactly `[Interactive: <type or template>]`, with no tag or entity processing |
| Normalizer.CleanFallsBack | app.py:124-139 | a payload that does not look like JSON, does not decode, or has neither key goes through the finishing pass as it is |
| Normalizer.FinishUnchanged | app.py:137-138 | text with no `<` and no `&` is unchanged by the finishing pass |
| Normalizer.CleanPlainUnchanged | app.py:124-139 | a non-empty plain payload with no `<` and no `&` is returned as it is |
| Normalizer.AmpDecoded | app.py:138 | the `&amp;` replacement decodes one `&amp;` in front of text without another `&` exactly once: the `&` it yields is not decoded again |
| Normalizer.NbspAfterAmp | app.py:138 | `&nbsp;` is not found inside an `&amp;` that text without another `&` follows, so that text is left as it is |
| Normalizer.DoubleEscapedQuote | app.py:138 | `&amp;quot;` ends as `"`, because `&amp;` is decoded before `&quot;` is looked for |
| Normalizer.DoubleEscapedSpace | app.py:138 | `&amp;nbsp;` ends as `&nbsp;`, because `&nbsp;` was looked for before `&amp;` was decoded |
| Normalizer.TaggedEnvelope | app.py:129-138 | an envelope whose text is `<b>w</b>&amp;bye` gives `w&bye` (for `Hi`, `Hi&bye`) |
| Normalizer.EmptyBracketsKept | app.py:137 | `<>` at the start of any text is not a tag: it survives, and the text after it is substituted on its own |
| Messages.IsUuid | app.py:110 | no contract of its own: a full match of the 8-4-4-4-12 hexadecimal pattern, either case; stated by `UuidSkipped` |
| Messages.Keep | app.py:206-210 | no contract of its own: the three filters on the normalised text; stated by `ProcessEmits`, `WhitespaceKept`, `UuidSkipped` and `MarkerSurvivesStrip` |
| Messages.MakeRecord | app.py:212-218 | no contract of its own: the record of a kept message; stated by `ProcessEmits` and `WhitespaceKept` |
| Messages.Process | app.py:200-218 | no contract of its own: one message's raise, skip or record; stated by `ProcessEmits`, `ProcessRaises`, `MissingTextSkipped`, `WhitespaceKept` and `UuidSkipped` |
| Messages.ProcessEmits | app.py:201-218 | a message is emitted exactly when its normalised text is non-empty, its stripped form is not a UUID and its stripped form does not contain the marker; the record then has the unstripped text, the creation time, the session (default `unknown`), the author (default `system`), and the sender USER exactly for `incoming` |
| Messages.ProcessRaises | app.py:205-230 | a message raises exactly when its normaliser raises |
| Messages.MissingTextSkipped | app.py:201-208 | a message without components, a missing level or a null text is dropped |
| Messages.WhitespaceKept | app.py:206-217 | whitespace-only text passes every filter and is stored unstripped |
| Messages.UuidSkipped | app.py:110 | a UUID is dropped whatever whitespace surrounds it |
| Messages.MarkerSurvivesStrip | app.py:206-210 | testing the marker on the stripped text is the same as testing it on the text |
| Fetcher.Delivered | app.py:175-193 | no contract of its own: a 200 response whose body decodes to a page; stated by `StopsOnFailure`, `StopsOnRaise` and `StopsOnFinalPage` |
| Fetcher.Continues | app.py:220-221 | no contract of its own: a delivered page on which nothing raised and whose `moreAvailable` is true; stated by `LastPageStops`, `ContinuingYield` and the `Stops*` lemmas |
| Fetcher.LastPage | app.py:163-230 | the index of the request the loop stops after is at least the first index asked about and, when that index is within the server's answers, at most their number; where it stops is stated by `LastPageStops` |
| Fetcher.Gathered | app.py:163-234 | no contract of its own: the records of the first n outcomes, in page order; stated by `StopsOnFailure`, `StopsOnRaise`, `StopsOnFinalPage`, `FetchPage` and `FetchData` |
| Fetcher.GatheredNonEmpty | app.py:208-218 | every record of the pages fetched, so every record `fetch_data` returns, has a non-empty Message |
| Fetcher.LastPageStops | app.py:163-230 | the loop stops at the first outcome that does not let it continue, and every earlier outcome does let it continue |
| Fetcher.Collect | app.py:200-218 | no contract of its own: the loop over one page; stated by `CollectEmissions`, `CollectNoRaise`, `CollectFirstRaise`, `CollectRaised`, `ContinuingYield` and `ProcessPage` |
| Fetcher.CollectNonEmpty | app.py:208-218 | every record the loop over a page keeps has a non-empty Message |
| Fetcher.CollectEmissions | app.py:200-218 | the loop over a page's messages is the fold over what each message gives |
| Fetcher.CollectNoRaise | app.py:200-218 | a page on which nothing raises contributes the records of all its kept messages, in order |
| Fetcher.CollectFirstRaise | app.py:200-230 | a message that raises ends the page, and the records kept are those of the messages before it |
| Fetcher.CollectRaised | app.py:200-230 | a page is abandoned exactly when one of its messages raises |
| Fetcher.ContinuingYield | app.py:200-222 | a page that lets the loop go on contributes all the records of its kept messages |
| Fetcher.StopsOnFailure | app.py:175-230 | a non-200 status, an undecodable body or a connection error on page k, after k pages that continued, ends the loop there with exactly the records of pages 0..k-1 and no further request |
| Fetcher.StopsOnRaise | app.py:200-230 | a message that raises on page k ends the loop with the earlier pages' records plus those before it on page k |
| Fetcher.StopsOnFinalPage | app.py:220-226 | a page without `moreAvailable: true` is the last one asked for, and all of its kept records are returned |
| Fetcher.ProcessPage | app.py:200-218 | the in-page loop appends exactly the records of `Collect`, and reports whether a message raised |
| Fetcher.FetchPage | app.py:163-230 | one pass of the page loop adds exactly the records the loop keeps from that page; it stops exactly at the page where the loop ends, and otherwise the outcome lets the loop go on |
| Fetcher.FetchData | app.py:152-234 | request k carries skip 100·k and limit 100; exactly `LastPage + 1` requests are sent; the result is the records of those pages, in page order and then in-page order |
| Sorting.SortBy | app.py:247 | the sorted sequence is ordered by the key and is a permutation of the input |
| Sorting.SortByStable | app.py:247 | the sort is stable: the elements with any one key keep their relative order |
| Pairs.Walk | app.py:250-276 | no contract of its own: the two-state walk over one session; stated by `OpenWalk`, `WalkMatchesExpected`, `LeadingBotsIgnored`, `ExampleSession` and `WalkSession` |
| Pairs.AddReply | app.py:265-266 | no contract of its own: `+= " \n " + text`, or `= text` while the Response is empty; stated through `FoldReplies` by `FoldFromEmpty` and `OpenWalk` |
| Pairs.Flush | app.py:255 | no contract of its own: the open pair, if any, is appended (also app.py:276); stated by `OpenWalk`, `WalkMatchesExpected` and `ExampleSession` |
| Pairs.FoldReplies | app.py:264-266 | no contract of its own: the bot replies folded into one Response in turn; stated by `FoldFromEmpty` and `OpenWalk` |
| Pairs.Surviving | app.py:280 | no contract of its own: the filter that drops pairs whose Query is `(Bot Initiated / Welcome)`; stated by `WalkMatchesExpected`, `WalkSession`, `AllWalksFiltered` and `ProcessToPairs` |
| Pairs.NextUserStops | app.py:250-266 | the turns before the count are bot turns and the turn at it is a user turn: the count is the number of bot turns before the next user turn |
| Pairs.FoldFromEmpty | app.py:264-266 | appending replies to an empty Response gives the replies joined with `" \n "`, leaving out empty replies before the first non-empty one |
| Pairs.RepliesOfKeptRecords | app.py:264-266 | for records whose Messages are all non-empty, as every fetched record is (`GatheredNonEmpty`), the Response of a run of bot turns is exactly the `" \n "`-join of their texts |
| Pairs.OpenWalk | app.py:250-276 | from an open pair, the walk folds the bot turns up to the next user turn into it, closes it, and goes on with no pair open |
| Pairs.WalkMatchesExpected | app.py:250-280 | the walk's pairs without the marker pairs are exactly those of the independent description: one per user turn that is not the marker, answered by the bot turns between it and the next user turn |
| Pairs.LeadingBotsIgnored | app.py:267-280 | bot turns before the first user turn of a session give no surviving pair |
| Pairs.ExampleSession | app.py:250-280 | USER q1, BOT a1, BOT a2, USER q2 gives (q1, `a1 \n a2`) and (q2, `""`) |
| Pairs.WalkSession | app.py:248-276 | the walk loop appends the pairs of `Walk`, and once the marker pairs are dropped, those of `Expected` |
| Pairs.WalkSessions | app.py:246-276 | the loop over the sessions in key order appends, session after session, the walk of that session's records sorted by time |
| Pairs.SessionChats | app.py:247 | no contract of its own: one session's records after `chats.sort(key=Timestamp)`; stated through `SortBy`/`SortByStable` and by `WalkSessions` and `SessionChatsHeads` |
| Pairs.AllWalks | app.py:246-276 | no contract of its own: `final_pairs` after the walks of the sessions in key order; stated by `WalkSessions` and `AllWalksFiltered` |
| Pairs.AllWalksFiltered | app.py:246-280 | dropping the marker pairs from the walks of the sessions in key order leaves exactly the independent description of each session, session after session |
| Pairs.SessionOrder | app.py:240-246 | each session once, and exactly the sessions of the records |
| Pairs.SessionOrderPrefix | app.py:240-246 | the key order only grows as records arrive: the sessions of any prefix of the records are a prefix of the key order, which with membership is first-appearance order |
| Pairs.SessionOf | app.py:240-242 | no contract of its own: one session's records in input order; stated by `SessionOfMembers`, `GroupBySession`, `GroupedPartition` and `SessionsPartitionRecords` |
| Pairs.SessionOfMembers | app.py:240-242 | a session's records all belong to it and come from the input |
| Pairs.GroupBySession | app.py:240-242 | the grouping loop builds a key for every session in first-appearance order, holding that session's records in input order |
| Pairs.ExpectedHeads | app.py:254-262 | within a session, the pairs are headed, in order, by the non-marker user turns, with their time, user and text |
| Pairs.GroupedPartition | app.py:240-246 | for any image of a record, the images of the sessions' records together are exactly those of all records (used for the heads of the non-marker user turns) |
| Pairs.SessionsPartitionRecords | app.py:240-246 | the sessions partition the records: the groups of the sessions together are the records, each counted once |
| Pairs.ReconstructedHeads | app.py:239-280 | across all sessions, every non-marker user turn heads exactly one pair, with its time, session, user and text, and no other pair exists |
| Pairs.ProcessToPairs | app.py:239-287 | the result is sorted newest first, is a permutation of the reconstructed pairs, has one pair per non-marker user message carrying its time, session, user and text, and is empty when there is none |

## Left out

- The HTTP calls, headers, URL and request body fields other than `skip` and
  `limit` are not modelled; they are network I/O. The remote API is the
  sequence of outcomes `FetchData` is given. (The `json=` body also carries
  the date range and `forward: "false"`.)
- The source loop (app.py:163-226) has no page cap: against a server that
  always answers `moreAvailable: true` it never ends. The model's server is a
  finite sequence of outcomes, and `OutcomeAt` answers every request past its
  end with a connection error. That convention is what makes `FetchData`
  terminate; the never-ending run is not modelled.
- `time.sleep(0.1)` is not modelled; it has no effect on the data.
- `response.json()` decoding is not modelled. A body either decodes to a page
  or is `Malformed`. `Malformed` covers every body that raises before any of
  its messages yields a record, and so ends the loop with the earlier pages'
  records only:
  - a body that does not decode (app.py:193);
  - a body that decodes to something other than an object, where
    `data.get` raises (app.py:194);
  - a `messages` that is not a list: a number, null or boolean raises at the
    `for` (app.py:200), and a non-empty string or object yields
    non-dictionary items, so the first `msg.get` raises (app.py:202).

  An empty string or object as `messages` iterates nothing and is modelled
  as a page with no messages.
- `json.loads` of the payload is not modelled. Its result is an input of the
  normaliser (`Parsed`). Every document that starts with `{` and decodes is
  an object, so arrays and scalars cannot arise there.
- `generate_jwt` (app.py:115-122) is not modelled; HS256 signing is a foreign
  library call. It reads the clock twice, so the token's lifetime is 3600 or
  3601 seconds.
- The `st.cache_data(ttl=300)` memoisation is not modelled; it is framework
  caching with a wall clock.
- The progress bar and the error display are not modelled; they are UI output
  and do not change the result. This covers the error display for a non-200
  response, including its `response.json()` attempt.
- Everything from the UI section on (app.py:289 and after) is not modelled:
  charts, metrics, CSV export and the commented-out drafts.
- `pd.to_datetime` is not modelled. Timestamps are integers and both sorts use
  the same order.
- The DataFrame is not modelled; it becomes a sequence of `Pair`s, and an
  empty DataFrame becomes the empty sequence.
- Pairs.ProcessToPairs: does not fix the order of pairs with equal
  timestamps, because the final `sort_values` is not stable.
- A `moreAvailable` that is truthy but not the boolean `true` (for example
  `1` or `"yes"`) is not modelled; the model treats only `true` as "more".
- A `sessionId` or `createdBy` that is present but null is not modelled: the
  model uses the default for a missing key and otherwise a string. The source
  would store None.
- A `createdOn` that is missing is not modelled; the source would store None.
- Messages of the wrong shape inside a `messages` list are not modelled:
  - a message that is not a dictionary;
  - a truthy `components` that is not a list;
  - a `components[0]` that is not a dictionary;
  - a component `data` that is not a dictionary.

  Each raises in the loop body (app.py:202-203), and the outer `except` ends
  the loop with the records kept so far, this page's earlier messages
  included. The model has no such input.
- A `data.text` that is a non-string truthy value (a number, `true`, a
  non-empty list or object) is not modelled. The source always raises there,
  on `raw_text.strip()` (app.py:127), and its outer `except` ends the loop.
- Messages.ProcessEmits: states the filter on the normalised text; the UUID
  pattern's `$` accepting a final newline is not modelled, because the text
  it is applied to is already stripped.
