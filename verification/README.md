# Verified models of the audit chain, the matcher rules and their neighbours

Each module is a model of one component, followed by the properties proved of it.

| module | component |
|---|---|
| Text | trimming, joining and flattening as the Go and ECMAScript libraries do them |
| CanonicalJson | the payload text that an audit entry's hash covers, at write time and at check time |
| CanonicalText | the payload text determines the payload |
| Framing | the byte string fed to the hash, and the timestamp in it, in the store and in the repair script |
| AuditChain | the audit tables as a value, the steps that change them, what a sound chain is, what a check has to answer |
| AuditRuns | safety of the chain over every run of recording and pruning across organizations |
| AuditTamper | what a check detects, where, what it cannot see, and what one hash commits to |
| AuditFraming | which records can be confused with others by the bytes that are hashed |
| AuditPrune | exactly when a prune keeps a chain checkable |
| AuditReach | the tables that runs reach with any clock, and the conditions above for them |
| AuditStore | the store object: Record, Verify, pruneOrg, Prune |
| ScriptJson | the repair script's JSON text against the store's |
| AuditRechain | the repair script, proved against Verify |
| AuditSink | recorders, the bounded queue and the deliverer as a state machine, and the recorder object |
| MatcherRules | expanding rules into flat rows tagged with group and member |
| MatcherMeaning | the flat rows mean what the rules mean, span by span, trace by trace and in the query |
| MatcherRoundTrip | reading rows back into rules |
| MatcherOldRows | rows from a server that predates members: exactly when reading and saving keeps their groups |
| MatcherOldMeaning | and exactly when it keeps the spans that the union of their groups takes |
| MatcherOldQuery | and exactly when it keeps the backend's query over them, joined by "or" and within one trace |
| FlowDepth | the memoised depth search of the flow graph against the longest path |
| FlowLayout | columns and placement of the flow graph's nodes |
| FormatProto | the protobuf re-indenter |
| OrgFilter | the tenant filter's two quoting layers against a reader of both |
| Migrations | any number of migration runners racing on the version key |
| Base64Url | section 5 of RFC 4648, unpadded |
| License | token text, verification, hot reload, entitlements |
| Totp | section 5.3 of RFC 4226 and sections 4.2 and 5.2 of RFC 6238 |
| StorageLimit | the two thresholds of the storage limit over runs of readings |

SHA-256, HMAC-SHA-1, Ed25519, the calendar, the quoting of JSON strings and the text of JSON numbers are
function parameters (`Env`, `Codec`, `Keys`, `Crypto`). Where a property needs something of them it is a
stated hypothesis: `HexDigest` (a digest is 64 hexadecimal digits), `NoCollision` and `NoCollisionInRepair`
(the finitely many records at hand do not collide), `StableNumbers` (formatting a number that was formatted
changes nothing more), `ClockText` (the calendar prints the seconds from 1970 to 9999 distinctly, in 19 characters
free of the separator; nothing is asked of other seconds), `QuoteAlike` and `NumbersAlike` (Python and Go print any
one string, and each number of the document at hand, alike), `JsonTexts` (a quoted string starts with a quotation
mark and is the beginning of no other, and a number is made of the characters of JSON's numbers), and signing that its own key accepts.

These statements in the code's comments hold only under a condition, and the condition is proved exact:

- The separator makes the hashed record unambiguous (`ee/audit/store.go:124-127`) if and only if none of the
  ten strings contains it: `AuditFraming.RecordUnambiguousIff`; what an edit can do otherwise is
  `AuditFraming.SeparatorHidesEdit`.
- Deleting or editing a row breaks the chain detectably
  (`services/cell-api/internal/migrations/sql/0059_audit_chain.up.sql:1-3`): an overwritten row goes unseen if and
  only if it is consistent or unhashed and the row behind it does not tell. Verify counts every row with an empty
  hash as legacy, wherever it stands, so clearing the hashes of any end of the log lets that end be rewritten, and
  any rows without a hash can stand in front of a log that was never pruned: `AuditTamper.OverwriteLocated`,
  `AuditTamper.HashedOverwriteUnseenIff`, `AuditTamper.ClearedEndUnseen`, `AuditTamper.ForgedFrontUnseen`,
  `AuditTamper.RemovalUnseenIff`. One theorem decides any stretch put in place of any other, insertions included:
  `AuditTamper.SpliceUnseenIff`.
- Pruning keeps the chain verifiable (`ee/audit/store.go:213-217`) if and only if no deleted row stands behind
  a surviving one, or a surviving legacy row shields the cut. Record stamps the time before it takes the lock
  (lines 54 and 62), so two racing recorders can break this: `AuditReach.AlwaysOkIff` over whole runs,
  `AuditReach.NextPruneChecksIff` for one prune, `AuditReach.RacingRecordersBreakChain`.
- The organization is escaped like the predicate (`pkg/clickhouse/orgfilter.go:53-55`) if and only if it holds
  no backslash: `OrgFilter.BothLayersUndoIff`.
- A member reads back as the rule it was (`frontend/src/components/MatcherRules.tsx:189-197`) if and only if no
  complete condition is on the service name: `MatcherRoundTrip.RoundTripIff`. Rows without members bucket by
  service. When that keeps their groups is `MatcherOldRows.OldRowsSurviveIff`. For trimmed and complete rows with one
  flag a service, when it keeps the spans that the union of the groups takes is
  `MatcherOldMeaning.SavingKeepsMeaning` with `MatcherOldMeaning.SavingLosesSpans`. Within one trace, where the backend asks for every group before and for one alternative of every service after,
  saving keeps the query if and only if every group has a service and the groups of each service ask for the same
  conditions: `MatcherOldQuery.AllQueryKept` with `MatcherOldQuery.AllQueryChanges`. Otherwise it can lose spans, or
  take spans that were not taken: `MatcherOldQuery.AllQueryWidens`.
- The sink mirrors the log (`pkg/audit/sink.go:77-78`) in the log's order if and only if recorders reach the queue
  in the order in which they wrote: `AuditSink.SinkOrderIsLogOrderIff`.

The repair script restores a chain if and only if every row whose hash it leaves alone already has the right
link; a row in which only `prev_hash` was altered stays broken (`AuditRechain.RepairVerifiesIff`,
`AuditRechain.LinkOnlyDamageNotRepaired`).

## Model

| member | source | states |
|---|---|---|
| `CanonicalJson.ReadWrite` | ee/audit/store.go:113-121 | Decoding what the encoder wrote gives every value back, whatever its shape and depth. |
| `CanonicalJson.BeforeIs` | ee/audit/store.go:117-121 | The order of keys is that of the first character in which they differ, a key before its extensions. |
| `CanonicalJson.WriteMembersWellFormed` | ee/audit/store.go:117-121 | A marshalled object has each of its keys once, in ascending byte order. |
| `CanonicalJson.ReorderedReadsSame` | ee/audit/store.go:179-189 | Reordering the members of any object at any depth, or respelling a number as the same float, is invisible to the decoder. |
| `CanonicalJson.LastCounts` | ee/audit/store.go:113-116 | Of several members with one key the last one's value is decoded. |
| `CanonicalJson.CanonicalIdempotent` | ee/audit/store.go:106-122 | The canonical document is an object and canonicalises to itself. |
| `CanonicalJson.PayloadSurvivesStorage` | ee/audit/store.go:99-122 | For every metadata value and every order in which the column keeps its members, the text hashed at write time is the text derived again at check time. |
| `CanonicalJson.CanonicalOfNothing` | ee/audit/store.go:107-116 | The canonical text is "{}" exactly for metadata that cannot be marshalled, that does not decode again, or that has no members. |
| `CanonicalText.TextDeterminesValue` | ee/audit/store.go:117-121 | Two documents that decode are marshalled to one text if and only if they decode to one value: no item of an array, no member and no string is left out or runs into the next, at any depth. |
| `CanonicalText.PayloadTextIff` | ee/audit/store.go:179-189 | The payload texts that Verify derives from two columns are equal if and only if the columns stand for the same members with the same values; a column that holds no object, or does not decode, stands for none. |
| `CanonicalText.MetadataTextIff` | ee/audit/store.go:106-122 | The text hashed at write time determines the metadata likewise. |
| `Framing.ChainHash` | ee/audit/store.go:128-139 | The loop hashes the frame of the parts: each part followed by the separator, in order. |
| `Framing.CleanFrameDecodes` | ee/audit/store.go:124-139 | A record free of separators is the only record of its length with its frame; the other record need not be free of them. |
| `Framing.FractionsAgree` | scripts/audit-rechain.py:84-88 | For every number of microseconds the script's fraction is Go's nine-digit fraction with trailing zeros dropped. |
| `Framing.StampsAgree` | scripts/audit-rechain.py:84-88 | The script and the store print every stored time alike. |
| `Framing.StampText` | ee/audit/store.go:133 | A time is printed as its whole second, a point and the fewest digits that denote its millionths, or nothing if there are none, and "Z" (section 5.6 of RFC 3339). |
| `Framing.StampClean` | ee/audit/store.go:133 | The printed time of any entry from 1970 to 9999 holds no separator. |
| `Framing.StampInjective` | ee/audit/store.go:133 | Dropping trailing zeros keeps distinct times from 1970 to 9999 distinct, to the microsecond. |
| `AuditChain.CheckIsTheReport` | ee/audit/store.go:146-211 | For any rows and seed exactly one result fits the description of a check: OK with every row counted if the log is intact, else the id, detail and counts of the first broken row. |
| `AuditRuns.UpgradedSound` | ee/audit/store.go:141-145 | A database of legacy rows only, or an empty one, is sound. |
| `AuditRuns.RecordKeeps` | ee/audit/store.go:50-97 | Recording keeps every organization's log sound, given a stamp not older than that organization's newest row. |
| `AuditRuns.PruneKeeps` | ee/audit/store.go:249-284 | Pruning one organization at any cutoff keeps every organization's log sound, also when it deletes everything or ends at a legacy row. |
| `AuditRuns.RunKeeps` | ee/audit/store.go:40-284 | Any interleaving of recording, pruning and rolled-back transactions across organizations keeps soundness. |
| `AuditRuns.ChainSafeOverRuns` | ee/audit/store.go:146-211 | After any such run a check of any organization answers OK, checked and legacy rows add up to the organization's rows, and the rows are the end of everything ever recorded with the anchor just before it. |
| `AuditRuns.SurvivorsAreHistory` | ee/audit/store.go:213-217 | Whatever was pruned, the whole history is intact from "", the surviving rows are its end, and the next entry links to its last hash. |
| `AuditTamper.HashesDistinct` | ee/audit/store.go:194-208 | In a checked log that starts from "" a hashed row shares its hash with no later row. |
| `AuditTamper.ChainFresh` | ee/audit/store.go:194-208 | So no two hashed rows that pruning leaves share a hash, and none has the hash its anchor keeps. |
| `AuditTamper.SamePartsIff` | ee/audit/store.go:124-139 | What is hashed of two rows is equal if and only if they have the same link, organization, actor, name, e-mail, action, target, address and time and their payloads stand for the same members. |
| `AuditTamper.OneHashOneHistory` | ee/audit/store.go:124-139 | Two logs that check, each from an anchor of its own, and have one hash in common agree in every hashed column and in the decoded payload of every entry before it, row by row backwards, as far as the one is hashed without a break and the other has rows; only that row of one log need be free of the separator. |
| `AuditTamper.SameHashSameRun` | ee/audit/store.go:181-209 | In two logs that check from an empty anchor the rows hashed without a break up to a common hash are equally many. |
| `AuditTamper.HashCommitsToHistory` | ee/audit/store.go:40-49 | One hash of an unpruned log commits to every entry hashed without a break up to it: any other log that checks and contains that hash, at whatever place, has the same entries right before it, and in front of them nothing or a row without a hash. |
| `AuditTamper.ForgedFrontUnseen` | ee/audit/store.go:172-178 | Any rows without a hash in front of an unpruned sound log are never seen: the check answers OK and counts them as legacy. |
| `AuditTamper.OverwriteLocated` | ee/audit/store.go:172-208 | Overwriting any row of any sound log with any row goes unseen if and only if the new row is unhashed or a consistent forgery and the row behind is missing, unhashed or links to the new hash; else a changed link is reported there as a link mismatch, a row that does not hash to its own hash there as a content mismatch, and any other change at the row behind as a link mismatch. |
| `AuditTamper.HashedOverwriteUnseenIff` | ee/audit/store.go:172-208 | For a hashed row of a log whose legacy rows come first: unseen if and only if the new row is unhashed and last, or a consistent forgery that is last or keeps the hash. |
| `AuditTamper.LegacyOverwriteUnseen` | ee/audit/store.go:172-178 | Overwriting a legacy row with any unhashed row is never seen. |
| `AuditTamper.SpliceUnseenIff` | ee/audit/store.go:161-210 | Any rows put in place of any stretch of any sound log go unseen if and only if they check by themselves from the hash before them and the row behind is missing, unhashed or links to the hash they end in; else the report is the one they get alone, or a link mismatch at the row behind. |
| `AuditTamper.InsertionUnseenIff` | ee/audit/store.go:161-210 | So inserted rows go unseen if and only if they check by themselves and nothing hashed follows or they end in the hash they started from. |
| `AuditTamper.EndReplacedUnseenIff` | ee/audit/store.go:161-210 | Replacing any end of a sound log by any rows goes unseen if and only if those rows check by themselves from the hash before them. |
| `AuditTamper.ClearedEndUnseen` | ee/audit/store.go:172-178 | Any end of a sound log can be replaced by any rows with empty hashes and the check answers OK; only the counts of checked and legacy rows differ. |
| `AuditTamper.TruncationUndetected` | ee/audit/store.go:161-210 | A log cut off at its end still checks, so a check alone does not show truncation. |
| `AuditTamper.EditUnseenIff` | ee/audit/store.go:200-206 | Altering a hashed row but for its hash and link is unseen if and only if the hashed bytes stay the same; else it is a content mismatch at exactly that id. |
| `AuditTamper.EditDetected` | ee/audit/store.go:200-206 | If that row's fields are free of the separator, it is reported if and only if a hashed column, the time or any value in the decoded payload changed, whatever the other rows are. |
| `AuditTamper.RemovalUnseenIff` | ee/audit/store.go:194-199 | Removing any row of any sound log is unseen if and only if it was the last, a legacy row comes next or both sides of the gap fit; else it is a link mismatch behind the gap. |
| `AuditTamper.RemovalDetectedIff` | ee/audit/store.go:172-199 | With legacy rows first and distinct hashes, removing a hashed row is reported if and only if it was not the last, and removing a legacy row is not reported in a log that starts from "". |
| `AuditFraming.RecordUnambiguousIff` | ee/audit/store.go:124-139 | No other record of ten strings and a time is hashed over the same bytes if and only if none of the ten strings holds the separator. |
| `AuditFraming.RecordsCollide` | ee/audit/store.go:130-137 | Two different records of eleven fields over the same bytes, for every text around the separator. |
| `AuditFraming.SeparatorHidesEdit` | ee/audit/store.go:200-206 | A hashed row with a separator in a text field has another row, with the same hash, link, time and payload, that can replace it unseen. |
| `AuditPrune.SeedAfterPrune` | ee/audit/store.go:258-277 | After a prune the walk starts from the hash of the deleted row with the highest id, over the rows that are not older than the cutoff. |
| `AuditPrune.PruneKeepsChainIff` | ee/audit/store.go:213-284 | Without any assumption on stamps: the survivors check if and only if no deleted row stands behind a surviving one, or a surviving legacy row stands in front and the deleted hashed rows are an end of the log. |
| `AuditPrune.PrunedTablesCheckIff` | ee/audit/store.go:213-284 | The same condition decides what Verify answers on the tables after pruneOrg. |
| `AuditStore.Store.Record` | ee/audit/store.go:50-97 | A transaction that commits appends exactly the entry's row, with its id, columns, payload and stamp as given, linked to the newest row, the anchor or ""; one that fails changes nothing. |
| `AuditStore.Store.Verify` | ee/audit/store.go:146-211 | The walk's result fits that description for the organization's rows and seed, so it is the one answer. |
| `AuditReach.ChainSafeWithoutClock` | ee/audit/store.go:40-284 | With any stamps at all: after any run whose prunes each cut off a front of the organization's rows, a check of any organization answers OK with every row counted. |
| `AuditReach.RunLegacyFirst` | ee/audit/store.go:65-83 | Over every run each organization's legacy rows come before its hashed rows. |
| `AuditReach.ReachableTables` | ee/audit/store.go:40-284 | The tables of such a run are intact after their seed, have legacy rows first, and hashes that are distinct and differ from the seed. |
| `AuditReach.NextPruneChecksIff` | ee/audit/store.go:213-284 | So the next prune leaves a log that checks if and only if it cuts off a front or a surviving legacy row shields it. |
| `AuditReach.AlwaysOkIff` | ee/audit/store.go:40-284 | Over whole runs from a table of legacy rows, with any stamps and any prunes: the organization's check answers OK at every point if and only if each of its prunes, when it happens, cuts off a front or is shielded by a surviving legacy row. |
| `AuditReach.RacingRecordersBreakChain` | ee/audit/store.go:54-62 | Two entries recorded in a new database, the second with the earlier stamp, and a prune between the stamps: the first, untouched, is reported as a link mismatch. |
| `AuditStore.Store.PruneOrg` | ee/audit/store.go:249-284 | Deletes exactly the organization's older rows, anchors at the last of them and counts them; changes nothing and succeeds when there are none or the lookup fails; changes nothing and fails on any other error. |
| `AuditStore.Store.OrgsWithOlder` | ee/audit/store.go:219-235 | Lists each organization with an older row once, and no other. |
| `AuditStore.Store.Prune` | ee/audit/store.go:218-247 | Succeeds if and only if the organizations can be listed and none with older rows has an error other than at the lookup; then each is pruned, or its lookup failed and it is as it was. In every case each is pruned or untouched, one with an error untouched, and the total is the number of rows that went. |
| `ScriptJson.EscapedChar` | scripts/audit-rechain.py:77-80 | The five replacements, run one after the other, turn each of the five characters into the escape that Go writes and leave every other character. |
| `ScriptJson.GoJsonAgrees` | scripts/audit-rechain.py:73-81 | Replacing the five characters in Python's finished text gives the store's canonical text of every document whose numbers Python prints as Go does, given that single strings do. |
| `ScriptJson.ScriptPayloadAgrees` | scripts/audit-rechain.py:122-123 | So of such a document the script hashes the payload text that Verify derives. |
| `AuditRechain.PythonPartsAgree` | scripts/audit-rechain.py:122-127 | For a row with such a payload the parts with Python's payload text are the parts the other results are about. |
| `AuditRechain.WantIsRowHash` | scripts/audit-rechain.py:122-127 | With the store's payload text the script's own order of columns and print of the time give exactly the hash that Verify expects. |
| `AuditRechain.PythonHashIsRowHash` | scripts/audit-rechain.py:122-127 | So does the hash over the payload text that Python prints, for every payload whose numbers it prints as Go does. |
| `AuditRechain.RechainOrg` | scripts/audit-rechain.py:104-133 | The walk over one organization collects exactly the updates specified, legacy rows restarting the chain. |
| `AuditRechain.Rechain` | scripts/audit-rechain.py:101-134 | All organizations' updates, in order. |
| `AuditRechain.ApplyUpdates` | scripts/audit-rechain.py:128-145 | Running the collected statements by id turns an organization's rows into the rechained rows. |
| `AuditRechain.RepairChangesOnlyHashes` | scripts/audit-rechain.py:128-133 | Only entry_hash and prev_hash ever change, legacy rows never, and a link only together with its hash. |
| `AuditRechain.IntactLeftAlone` | scripts/audit-rechain.py:135-137 | A chain that checks gets no update. |
| `AuditRechain.SecondRunIdle` | scripts/audit-rechain.py:128-137 | Whatever the rows were, a second run after the first issues no update. |
| `AuditRechain.RepairVerifiesIff` | scripts/audit-rechain.py:128-133 | For any rows at all the repaired log checks if and only if every row that keeps its hash already had the recomputed link. |
| `AuditRechain.RepairVerifies` | scripts/audit-rechain.py:101-145 | A log linked when it was written, but hashed over payload texts that need not be canonical, checks once the updates are applied. |
| `AuditRechain.LinkOnlyDamageNotRepaired` | scripts/audit-rechain.py:128-137 | A row in which only prev_hash was altered gets no update and is still reported as a link mismatch. |
| `AuditRechain.RechainRepairsEveryOrg` | scripts/audit-rechain.py:101-145 | On the whole table, with the updates of all organizations in one transaction, every visited organization checks. |
| `AuditSink.StepConserves` | pkg/audit/sink.go:79-115 | Every step of a recorder or of the deliverer keeps the conservation invariant. |
| `AuditSink.RunConserves` | pkg/audit/sink.go:79-115 | So does every interleaving: queue first in first out and at most 256, at most two posts an event in turn, nothing dropped unless the queue is full. |
| `AuditSink.RecordedAreSuccesses` | pkg/audit/sink.go:77-82 | What the sink sees is exactly the local successes, in their order; a failed local write forwards nothing. |
| `AuditSink.EveryEventAccountedFor` | pkg/audit/sink.go:79-115 | From start-up every local success is exactly one of delivered, failed twice, dropped for a full queue, waiting, in flight, or still with its recorder. |
| `AuditSink.AnswersAreReplies` | pkg/audit/sink.go:106-115 | Over every run the sink's answers, in the order of the posts, are exactly the replies of the finished events one after the other and that of an event refused once; an event ends at its first success or its second answer. |
| `AuditSink.AnswersCounted` | pkg/audit/sink.go:106-115 | The sink's successes are as many as the events delivered; its refusals are two for each event that failed, one for each delivered at the second post and one for an event about to be posted again. |
| `AuditSink.DroppedIffFull` | pkg/audit/sink.go:95-99 | Counting a schedule's offers and takes alone, 256 waiting at most, gives the length of the queue, and as many events are dropped as recorders found 256 waiting. |
| `AuditSink.DeliveredInOrder` | pkg/audit/sink.go:103-115 | The delivered events are a subsequence of the order in which they were queued. |
| `AuditSink.SinkOrderMayDiffer` | pkg/audit/sink.go:80-99 | Two recorders can reach the queue in the other order than the log. |
| `AuditSink.SinkOrderIsLogOrderIff` | pkg/audit/sink.go:80-99 | While nothing is dropped and events differ, the queue receives a front of the log in the log's order if and only if recorders reach it in the order in which they wrote; then the rest are exactly the recorders on their way. |
| `AuditSink.DeliveredInLogOrder` | pkg/audit/sink.go:79-115 | With drops too, recorders in that order make what is queued and what is delivered subsequences of the log. |
| `AuditSink.ForwardingRecorder.Record` | pkg/audit/sink.go:79-101 | The answer is the local write's whatever the queue does; a success is queued at the end if there is room, else dropped. |
| `AuditSink.ForwardingRecorder.TakeOldest` | pkg/audit/sink.go:106-108 | Takes the oldest event into its first post. |
| `AuditSink.ForwardingRecorder.Answer` | pkg/audit/sink.go:108-112 | A failure of the first post leads to the pause; a success, and any answer to the second, ends the event. |
| `AuditSink.ForwardingRecorder.Retry` | pkg/audit/sink.go:109-110 | After the pause comes the second and last post. |
| `AuditSink.ForwardingRecorder.Drain` | pkg/audit/sink.go:106-115 | The loop empties the queue against any sink, in order: each event is finished with a first success, or with a failure and the answer to its second post, and is posted twice if and only if the first post failed. |
| `MatcherRules.ValidCondsAre` | frontend/src/components/MatcherRules.tsx:143-151 | The conditions that are kept are those that name an attribute and have a value or an operator that needs none, all of them, trimmed, in order, each as often as it was typed. |
| `MatcherRules.PushRule` | frontend/src/components/MatcherRules.tsx:167-184 | One rule appends its groups, numbered from the running group, one member throughout. |
| `MatcherRules.RulesToMatchers` | frontend/src/components/MatcherRules.tsx:157-187 | The loop produces the rows of all complete rules with running group and member. |
| `MatcherRules.GroupsOfRows` | frontend/src/components/MatcherRules.tsx:157-187 | Grouping the flat rows by number gives back exactly the groups the rules expanded into, in order. |
| `MatcherMeaning.RuleHoldsAsTyped` | frontend/src/components/MatcherRules.tsx:143-187 | A span satisfies a rule, as it was typed, if and only if it is of the trimmed service and satisfies every, or some, condition that is kept, or none is kept. |
| `MatcherMeaning.RuleGroupsHold` | frontend/src/components/MatcherRules.tsx:153-156 | A span satisfies a rule if and only if it satisfies all rows of one of the rule's groups. |
| `MatcherMeaning.RuleGroupsTake` | frontend/src/components/MatcherRules.tsx:164-170 | The same with descendants: a rule takes a span, or one above it, if and only if one of its groups does. |
| `MatcherMeaning.UnionMeansRules` | frontend/src/components/MatcherRules.tsx:259-281 | Joined by "or": for every rule list, span and trace forest, the union over the groups is the union over the complete rules, closed under descendants where flagged. |
| `MatcherMeaning.TraceMeansRules` | frontend/src/components/MatcherRules.tsx:274-279 | Within one trace: a met group for every member if and only if every complete rule is satisfied by some span of the trace. |
| `MatcherMeaning.SingleMemberGate` | services/cell-api/internal/store/clickhouse.go:3302-3315 | Leaving the gate out when there is only one member changes nothing. |
| `MatcherMeaning.QueryMeansRules` | services/cell-api/internal/store/clickhouse.go:3164-3265 | What the backend selects from the submitted rows is what the rules say, for "any" and for "all", and every span when no rule is complete and there is no clause. |
| `MatcherRoundTrip.Bucket` | frontend/src/components/MatcherRules.tsx:208-213 | One bucket for each group number that occurs, holding that group's rows in order. |
| `MatcherRoundTrip.MatchersToRules` | frontend/src/components/MatcherRules.tsx:198-257 | The loop over the buckets in ascending order computes the specified rules, members in order of appearance, groups without a service last. |
| `MatcherRoundTrip.ServiceIsFirst` | frontend/src/components/MatcherRules.tsx:219 | A group's service is that of its first row on the service name. |
| `MatcherRoundTrip.MemberIsFirst` | frontend/src/components/MatcherRules.tsx:240 | Its member is the first that its rows name. |
| `MatcherRoundTrip.ConditionsAreOthers` | frontend/src/components/MatcherRules.tsx:220-222 | Its conditions are those of its other rows, all of them, in order. |
| `MatcherRoundTrip.ServicelessReadBack` | frontend/src/components/MatcherRules.tsx:224-233 | Of any rows the groups without a service come back last, in order, each as a rule with an empty service and all its conditions, joined by "and" if there are several. |
| `MatcherRoundTrip.RowsReadBack` | frontend/src/components/MatcherRules.tsx:189-257 | Reading back the rows of any rules gives every complete rule, trimmed, in order, less its conditions on the service name. |
| `MatcherRoundTrip.RoundTripIff` | frontend/src/components/MatcherRules.tsx:189-257 | The round trip gives the normalised rules if and only if no complete condition of a complete rule is on the service name. |
| `MatcherRoundTrip.NormalExpandsSame` | frontend/src/components/MatcherRules.tsx:157-187 | A normalised rule expands into exactly the original rule's groups. |
| `MatcherRoundTrip.SavingAgainSame` | frontend/src/components/MatcherRules.tsx:157-257 | Saving what was read back writes exactly the same rows. |
| `MatcherOldRows.OldRowsSurviveIff` | frontend/src/components/MatcherRules.tsx:189-257 | For all rows without members: reading and saving keeps every service's list of groups, up to numbers and members, if and only if every group has one trimmed service row and trimmed complete conditions, and each service has one group, or only groups with exactly one condition and one flag. |
| `MatcherOldRows.ServiceKeptIff` | frontend/src/components/MatcherRules.tsx:241-254 | The same for the groups of one service. |
| `MatcherOldMeaning.SavingNarrows` | frontend/src/components/MatcherRules.tsx:194-195 | Of trimmed and complete rows with one service row a group and one flag a service: the union of the saved groups never takes a span that the union of the groups did not take. |
| `MatcherOldMeaning.SavingKeepsMeaning` | frontend/src/components/MatcherRules.tsx:248-254 | That union takes the same spans in all telemetry if every group has a service, holds all of its service's conditions if some group of the service has several, and otherwise has one if any group of the service has. |
| `MatcherOldMeaning.SavingLosesSpans` | frontend/src/components/MatcherRules.tsx:248-254 | And only then, for conditions read independently: else some telemetry has a span that the union took and no longer takes. |
| `MatcherOldMeaning.OldAlternativesMerge` | frontend/src/components/MatcherRules.tsx:248-254 | "a, or b and c" of one service reads back as "a and b and c". |
| `MatcherOldMeaning.BareAlternativeLost` | frontend/src/components/MatcherRules.tsx:248-254 | "the service, or the service with a" reads back as "the service with a". |
| `MatcherOldMeaning.SavedSameSpansIff` | frontend/src/components/MatcherRules.tsx:189-257 | For rows of any kind, mixed flags and incomplete conditions included: the two unions take the same spans in all telemetry, conditions read independently, if and only if every group before saving is covered by one after and every one after by one before; one group covers another if it asks for no more and takes the spans below wherever the other does. |
| `MatcherOldQuery.AnyQueryNarrows` | services/cell-api/internal/store/clickhouse.go:3256-3264 | Joined by "or", as long as some group has a service, the backend's query over the saved rows selects no span that it did not select over the rows. |
| `MatcherOldQuery.AnyQueryKept` | services/cell-api/internal/store/clickhouse.go:3256-3264 | Joined by "or", it selects the same spans under the condition for the union. |
| `MatcherOldQuery.ServicelessQueryTakesAll` | services/cell-api/internal/store/clickhouse.go:3256-3258 | If no group has a service nothing is saved, and the query without a clause selects every span. |
| `MatcherOldQuery.AllQueryKept` | services/cell-api/internal/store/clickhouse.go:3277-3315 | Within one trace, where each group without a member is a member of its own, the query over the saved rows selects the same spans in all telemetry if every group has a service and the groups of each service ask for the same conditions. |
| `MatcherOldQuery.OneGroupEach` | services/cell-api/internal/store/clickhouse.go:3277-3315 | One group for each service is enough. |
| `MatcherOldQuery.AllQueryWidens` | frontend/src/components/MatcherRules.tsx:241-254 | Where saving keeps the union but groups of one service ask for different conditions, some telemetry has a span that the saved rows select within one trace and the rows did not. |
| `MatcherOldQuery.AllQueryChanges` | frontend/src/components/MatcherRules.tsx:189-257 | So AllQueryKept's condition is exact, for conditions read independently: without it some telemetry has a span that only one of the two queries selects. |
| `FlowDepth.Search.constructor` | frontend/src/components/IntegrationFlow.tsx:305-313 | The incoming lists hold every node and target with its sources in edge order. |
| `FlowDepth.Search.Depth` | frontend/src/components/IntegrationFlow.tsx:314-323 | Terminates on every graph, never changes a recorded depth, restores the names being visited, and on an acyclic graph records longest paths only. |
| `FlowDepth.LongestStep` | frontend/src/components/IntegrationFlow.tsx:319 | One more than the deepest source is the length of the longest path to the name. |
| `FlowDepth.DepthBound` | frontend/src/components/IntegrationFlow.tsx:314-323 | On any graph, cycles included, a depth is at most the number of names with an edge into them. |
| `FlowLayout.FindDepths` | frontend/src/components/IntegrationFlow.tsx:312-324 | Every node gets a depth; on an acyclic graph it is the length of the longest path ending there. |
| `FlowLayout.FindColumns` | frontend/src/components/IntegrationFlow.tsx:326-333 | Each column holds exactly the nodes of its depth, in node order, and every node has a column. |
| `FlowLayout.LongestColumn` | frontend/src/components/IntegrationFlow.tsx:335-338 | The maximum bounds every column. |
| `FlowLayout.PlaceColumn` | frontend/src/components/IntegrationFlow.tsx:342-351 | Every node of the column gets a slot of it. |
| `FlowLayout.Place` | frontend/src/components/IntegrationFlow.tsx:341-352 | Every node and nothing else is placed, in a slot of the column of its depth. |
| `FlowLayout.PlacedApart` | frontend/src/components/IntegrationFlow.tsx:343-350 | Two different nodes' boxes neither overlap nor touch, in one column or in two. |
| `FlowLayout.PlacedInside` | frontend/src/components/IntegrationFlow.tsx:339-349 | Every box lies within the inner height. |
| `FlowLayout.ColumnCentred` | frontend/src/components/IntegrationFlow.tsx:343-344 | Each column has as much room above its first box as below its last. |
| `FlowLayout.EdgeDeepens` | frontend/src/components/IntegrationFlow.tsx:319 | An edge leads to a strictly longer longest path. |
| `FlowLayout.Layout` | frontend/src/components/IntegrationFlow.tsx:302-353 | Every node is placed exactly once without overlap; the height is what the longest column needs, and each column stands centred in it, its boxes 28 apart in node order; no box lies right of the column numbered by the names with an edge into them; without cycles every edge points to a later column with the gap between. |
| `FlowLayout.ForwardIffAcyclic` | frontend/src/components/IntegrationFlow.tsx:312-324 | The depths found lead every edge forward if and only if the graph has no cycle. |
| `FormatProto.FormatText` | frontend/src/components/CodeEditor.tsx:196-224 | The loop computes the specified text: normal lines, each indented by the clamped running depth. |
| `FormatProto.DropBlanks` | frontend/src/components/CodeEditor.tsx:221-222 | Popping blank lines off the result is dropping them from the lines before indenting. |
| `FormatProto.SplitJoined` | frontend/src/components/CodeEditor.tsx:198-223 | Splitting what was joined gives the lines back and one empty line after the last feed. |
| `FormatProto.SplitOtherEnds` | frontend/src/components/CodeEditor.tsx:198 | A carriage return and line feed ends a line as a line feed does, and the last line needs neither. |
| `FormatProto.FormatIdempotent` | frontend/src/components/CodeEditor.tsx:196-224 | Formatting twice is formatting once, for every text. |
| `FormatProto.FormatKeepsLines` | frontend/src/components/CodeEditor.tsx:196-224 | The trimmed non-blank lines survive in order, and the result is exactly the indented normal lines with no stray blank. |
| `FormatProto.NormalTidy` | frontend/src/components/CodeEditor.tsx:204-222 | No blank line in front, at the end or next to another. |
| `FormatProto.DepthClosedForm` | frontend/src/components/CodeEditor.tsx:217-219 | The clamped running depth is the number of opening braces so far less the closing ones, less the minimum that difference has had, or zero if that is smaller. |
| `FormatProto.LeastIsLeast` | frontend/src/components/CodeEditor.tsx:219 | That minimum bounds the sum after every number of lines and is attained. |
| `FormatProto.IndentedAt` | frontend/src/components/CodeEditor.tsx:211-214 | Each line stands behind two spaces for each block open before it, one block less if it starts by closing, never below zero. |
| `OrgFilter.WithTableFilter` | pkg/clickhouse/orgfilter.go:42-66 | No setting exactly when there is nothing to filter on, else the printed map of the three tables, each with the joined predicate. |
| `OrgFilter.WithOrgFilter` | pkg/clickhouse/orgfilter.go:29-31 | The same for an organization alone. |
| `OrgFilter.SettingReadsBack` | pkg/clickhouse/orgfilter.go:53-62 | For every predicate, a reader of map and string literals finds exactly the three tables, each with that predicate unescaped. |
| `OrgFilter.DoubledReadsBack` | pkg/clickhouse/orgfilter.go:45 | An organization without a backslash reads back from its literal, and reading stops at the closing quote. |
| `OrgFilter.BackslashLost` | pkg/clickhouse/orgfilter.go:45 | An organization with a backslash never reads back, whatever escapes the reader knows. |
| `OrgFilter.BothLayersUndoIff` | pkg/clickhouse/orgfilter.go:42-62 | Both layers undo, followed by the caller's condition unaltered, if and only if the organization holds no backslash. |
| `OrgFilter.CallerAloneReadsBack` | pkg/clickhouse/orgfilter.go:47-62 | Without an organization each of the three tables reads back the caller's predicate in parentheses, whatever characters it contains. |
| `OrgFilter.OrgAloneReadsBack` | pkg/clickhouse/orgfilter.go:44-62 | Without a predicate each reads back the condition on OrganizationId alone. |
| `Migrations.StepKeeps` | pkg/postgres/migrate.go:36-66 | Every step of every runner keeps: recorded versions are the committed bodies, none twice, and what a runner has passed is recorded. |
| `Migrations.CommitAtMostOnce` | pkg/postgres/migrate.go:88-102 | Over any run of any number of runners with stale snapshots and failures, no body commits twice, recorded versions are exactly the committed bodies, and a runner that succeeds leaves every file recorded. |
| `Migrations.AloneGoesOn` | pkg/postgres/migrate.go:54-66 | From any state that racing runners have left, a running one gets through on its own steps: it commits the files it did not see applied, in order, and ends with success unless it comes to one that another has recorded meanwhile, where it ends with an error. |
| `Migrations.ErrorEndsRun` | pkg/postgres/migrate.go:58-65 | A runner that met a taken key or any other error, anywhere in a schedule, ends without success and does nothing more. |
| `Migrations.CommitIsNext` | pkg/postgres/migrate.go:54-66 | The only file that can commit is the first one not recorded. |
| `Migrations.CommitInOrder` | pkg/postgres/migrate.go:16-66 | From a downward closed set the bodies committed by all runners together are exactly the next files, one after the other, and the set stays downward closed. |
| `Migrations.Database.ApplyMigration` | pkg/postgres/migrate.go:88-102 | Body and row commit together or not at all, and never for a version already recorded. |
| `Migrations.Database.Migrate` | pkg/postgres/migrate.go:26-68 | Commits the missing files in order up to the first that does not work, succeeds exactly when all missing files work, and records exactly what it committed. |
| `Base64Url.DecodeEncode` | pkg/license/license.go:343-350 | Decoding undoes encoding for every byte string (section 5 of RFC 4648). |
| `Base64Url.EncodeInAlphabet` | pkg/license/license.go:338-342 | Encoded text keeps to the alphabet, so it holds no point and no white space. |
| `Base64Url.DecodeIff` | pkg/license/license.go:343-350 | A text decodes if and only if, line breaks aside, it keeps to the alphabet of table 2 of RFC 4648 and no single character is left over after groups of four; and then to bytes whose encoding is the text but for the unused bits of its last character. |
| `License.Mint` | ee/cmd/sluicio-license/main.go:109-140 | A token is printed exactly when a cell would accept it, and then verifies to the claims. |
| `License.VerifyValidIff` | pkg/license/license.go:329-359 | Any text at all verifies to some claims if and only if, trimmed, it is the prefix, a part without a point, a point and a part, both of which decode, the key accepts the second as the signature of the first, and the first is the JSON of those claims. |
| `License.VerifyErrors` | pkg/license/license.go:333-342 | A text is refused as not ours if and only if, trimmed, it lacks the prefix, and as malformed if and only if it has the prefix and no point after it. |
| `License.PartsVerdict` | pkg/license/license.go:343-358 | Of every token of two parts the first thing wrong is the error: the payload's encoding, the signature's, the signature itself, the JSON. |
| `License.TokenVerdict` | pkg/license/license.go:329-359 | What verifying answers for any payload and signature in token form, with any white space around it. |
| `License.MintedVerifies` | ee/cmd/sluicio-license/main.go:109-118 | With the matching key, verifying a minted token gives the claims it was minted for. |
| `License.VerifyTrims` | pkg/license/license.go:334 | Verifying depends only on the token inside its white space. |
| `License.ReloadKeeps` | pkg/license/license.go:235-263 | One look at the file keeps the remembered text empty or a token for the license in force, and replaces the license exactly by a valid token. |
| `License.TakenOnce` | pkg/license/license.go:247-259 | A file that was taken over or is as remembered is left alone from then on until it changes. |
| `License.InForceIsLatestValid` | pkg/license/license.go:222-263 | Over any sequence of file contents the license in force is that of the latest valid token read, else the one before. |
| `License.Manager.Load` | pkg/license/license.go:315-327 | A valid token's claims are stored; on an error the license in force stays. |
| `License.Manager.LoadFromEnv` | pkg/license/license.go:185-212 | Key before file; the text is remembered only after a successful load from a file; every outcome leaves a state from which watching may start. |
| `License.Manager.ReloadFromFile` | pkg/license/license.go:235-263 | Changes the state and answers as the specified look at the file does; nothing happens without a file. |
| `License.ReportedWords` | pkg/license/license.go:286-306 | A tick is reported unless nothing came of it or it failed in the words in which the tick before it failed. |
| `License.Manager.WatchFile` | pkg/license/license.go:265-313 | Reports exactly the ticks that changed the license or failed with other words than the tick before, and ends in the state of the run. |
| `License.StatusOf` | pkg/license/license.go:415-463 | The read model's case analysis agrees with Entitled and MaxIntegrations: licensed exactly within the window with fourteen days of grace, features on exactly when licensed and entitled, the limit zero otherwise, expiry, grace and each warning exactly by the clock. |
| `Totp.PutUint64` | pkg/totp/totp.go:44-45 | The buffer holds the counter's eight bytes, the most significant first. |
| `Totp.BytesReadBack` | pkg/totp/totp.go:44-45 | A counter that fits can be read back from its bytes, so distinct counters are distinct messages. |
| `Totp.OrFills` | pkg/totp/totp.go:50-53 | Oring into cleared low bits adds. |
| `Totp.OrAnd` | pkg/totp/totp.go:49-53 | Or and and share the bits of two numbers between them, whatever the numbers. |
| `Totp.TruncateIsDynamic` | pkg/totp/totp.go:49-53 | For every 20-byte MAC the masks, shifts and ors stay in range and compute the big-endian word modulo 2^31 (section 5.3 of RFC 4226). |
| `Totp.PaddedFits` | pkg/totp/totp.go:54 | Zero padding to the width gives exactly the width's digits of any number that fits. |
| `Totp.CodeShape` | pkg/totp/totp.go:39-55 | Every code is six digits and denotes the truncated value modulo a million. |
| `Totp.QuotientIs` | pkg/totp/totp.go:58-62 | From 1970 on the counter numbers the thirty seconds that the time falls in; before, it is rounded towards zero. |
| `Totp.Code` | pkg/totp/totp.go:39-55 | An unreadable secret is an error; otherwise the code of the counter. |
| `Totp.Generate` | pkg/totp/totp.go:58-62 | The code of the period a time falls in. |
| `Totp.Validate` | pkg/totp/totp.go:64-82 | Accepts exactly the codes of the current counter, the one before and the one after, trimmed. |
| `Totp.GeneratedAccepted` | pkg/totp/totp.go:64-82 | A code is accepted at every time within 30 seconds of the one it was generated at (section 5.2 of RFC 6238), before 1970 too. |
| `Totp.StaleOnlyByRepeat` | pkg/totp/totp.go:64-82 | A code sixty seconds old or older is accepted only if another counter's six digits happen to repeat it. |
| `StorageLimit.StoppedIffHeld` | pkg/clickhouse/storage.go:85-102 | Ingest is refused after a run of readings if and only if some reading reached the limit and every later one stayed at or above 0.98 of it. |
| `StorageLimit.NoLimitNeverStops` | pkg/clickhouse/storage.go:91-94 | A zero limit never refuses anything, after any run. |
| `StorageLimit.MovementPaysFlips` | pkg/clickhouse/storage.go:57-63 | What usage has moved pays for every flip after the first and for the way to the next. |
| `StorageLimit.FlipsBounded` | pkg/clickhouse/storage.go:57-63 | The flips after the first times 0.02 of the limit are at most the total movement of usage. |

## Left out

- SQL, drivers and transactions as such: the tables are sequences and maps, the advisory lock and the transaction are atomic steps, and an error of Record's statements is one `fault`, and an error of pruneOrg's is told apart by where it happens. The read errors that `ee/audit/store.go:69-77` and 151-153 pass over count as "no row", and Verify's own query errors are not modelled.
- AuditRuns.ChainSafeOverRuns: assumes that stamps do not decrease with ids within an organization, which the code does not enforce; `AuditReach.ChainSafeWithoutClock`, `AuditReach.NextPruneChecksIff` and `AuditReach.AlwaysOkIff` say exactly what happens without it.
- AuditTamper.OneHashOneHistory: assumes times between 1970 and 9999, where RFC 3339 prints 19 characters; the calendar itself is a parameter.
- AuditTamper.EditDetected: assumes that the rows at hand do not collide under SHA-256, as do the other tamper results; the assumption is on the finitely many rows named. The times compared lie between 1970 and 9999; `AuditTamper.EditUnseenIff` says what holds of the hashed bytes without that.
- CanonicalJson.PayloadSurvivesStorage: whether a number is within float64, its text after one and the quoting of strings are parameters; keys are compared by code point, which orders like UTF-8 bytes. A payload column that is not JSON cannot occur in JSONB.
- CanonicalText.PayloadTextIff: strings are sequences of characters; bytes that are not UTF-8, which Go's encoder replaces, do not occur in a decoded document.
- AuditRechain.PythonPartsAgree: assumes of single strings, and of the numbers in the payload at hand, that Python prints them as Go does once the five characters are replaced. Python prints 1.0 as `1.0` and Go as `1`; payloads with such a number, and payloads beyond float64, are outside the result.
- AuditRechain.Rechain: the dry run, the psql process and its quoting are not modelled, and a NULL resource_id, which the script reads as "" and Verify fails to scan, does not occur in a row here.
- `List`, `likePrefix`, `MeasureStorage`, `MeasureSignals`, `MeasureDisks`, `DeleteOldestDay`, `DropIdleSystemLogs`, `StorageLimitFromGB`: their work is in SQL or is one expression.
- AuditSink.ForwardingRecorder.Drain: runs while no recorder does; recorders and deliverer interleave freely in the state machine. The HTTP request, its signature, timeouts and the log lines are not modelled; a post succeeds or fails.
- MatcherMeaning.QueryMeansRules: what a condition matches is a parameter; the backend's sources, its depth cap on subtrees, its time window and the tables other than spans are not modelled.
- MatcherOldMeaning.SavingLosesSpans: what a condition matches is any relation between conditions and spans, so the telemetry in which a span is lost may read two conditions independently although one implies the other, as "x is 1" implies "x exists"; for such conditions the rows may be kept although they do not meet the condition.
- MatcherOldQuery.AllQueryChanges: the same holds of the telemetry it names.
- MatcherOldQuery.AllQueryKept: is about trimmed and complete rows, with one service row a group and one flag a service; for other rows without members only the union is compared (`MatcherOldMeaning.SavedSameSpansIff`), not the query within one trace.
- MatcherRoundTrip.MatchersToRules: the mutation of a rule inside its map is an update of the map.
- FlowLayout.Layout: returns the inner height beside the positions so that they can be related; heights are real numbers. Rendering, name wrapping and React state are not modelled.
- FormatProto.FormatText: regular expressions are written out as functions; `formatXml` rests on the browser's DOMParser and is left out.
- OrgFilter.SettingReadsBack: the reader of ClickHouse literals is a convention (a doubled quote is a quote, a backslash and a character are one character); escapes of more than one character such as `\x41` are not modelled.
- Migrations.Database.Migrate: the file list is given as versions in the order of the sorted names; picking `.up.sql` files and sorting are not modelled, nor is the ClickHouse runner, which has no transaction. An error while reading a file is one of the answers of `works`.
- License.Mint: the claims are given; building them from flags, the days and the comma-separated features, is left out, and so are key files.
- License.Manager.WatchFile: the ticker is the sequence of file readings, the context ends it, and locking is left out because each call is one step.
- License.StatusOf: plan, customer, id, limits and the printed dates are copied or formatted and are left out; times are whole nanoseconds without overflow.
- Totp.Code: upper-casing and base 32 decoding of the secret, and HMAC-SHA-1, are parameters; `GenerateSecret`, `ProvisioningURI` and the constant-time comparison's timing are left out.
- StorageLimit.StoppedIffHeld: 0.98 of the limit is compared exactly, without float64 rounding.
- The MCP catalogue, mail, HTTP servers, proxies, environment and version helpers, the API client, Playwright recordings and licence listers: plumbing or static tables.
