# Verified model of ContentKit's stateful and grammatical cores

A Dafny 4.11 model of the parts of ContentKit whose correctness rests on several functions, on a loop, or on
every possible run, with the properties proved about them. `dafny verify dfyconfig.toml` checks the project.

| file | models |
|---|---|
| `Erasure.dfy`, `Replay.dfy` | account deletion as a crash-and-restore protocol over two stores; the operator replays |
| `Chapters.dfy` | the chapter rewrite, with the table's constraints checked after every row change |
| `Multipart.dfy` | multipart upload planning, resume, signing batches and progress |
| `Aspects.dfy`, `Edits.dfy` | aspect ratios and the automatic crop |
| `AccessHistory.dfy` | the change-only access history |
| `Locking.dfy`, `Authz.dfy` | authorize's row locks, and its verdicts when rows change after the provider was asked |
| `ContentID.dfy`, `IDReading.dfy` | UUIDv7 ids, written and read back; legacy ids |
| `Keys.dfy`, `ContentURL.dfy` | entitlement keys, content codes and paths |
| `WatchMedia.dfy` | the client's server-sent-event reader |
| `Identity.dfy` | normalized identity comparison |
| `Lex.dfy`, `Text.dfy`, `Decimal.dfy`, `Sorting.dfy`, `Arith.dfy` | the string order, Go's string helpers, sorting, arithmetic |

Code that updates state is a class or a method proved against a specification function; the lemmas are about
that function. A failing call (a lost connection, a refused upload, a provider error) is an answer supplied by a
parameter, so every contract holds for every failure and says when there is none.
A transaction is one atomic step. `hide` statements only keep definitions away from proofs that do not need them.

**Erasure protocol.** Any number of attempts at any accounts overlap with crashes, the recovery-period marker,
AuthKit's own recipient erasures, an inbox that appears later, snapshots and restores. A restore replaces the
catalog by an earlier snapshot and ends the attempts running on it, as an operator's restore does. The unseen
part of content anonymization matters only through its erased-subject row (`internal/contentstore/account_lifecycle.go:201-204`),
which is modelled. Actor ids are compared byte by byte; recipient ids are not empty.

**Chapters.** `Authored` is what the only producer of chapters, `checkSegments`, hands over; `CheckSegments` proves it.
`Stored` is what every completed write leaves and the next one relies on. Generated ids are a parameter.

**Identity.** `lower` stands for `unicode.ToLower`: any mapping of characters, one that keeps white space where casing
is forgiven.

## What the proofs found

- Resolving an automatic crop a second time is refused for some portrait aspects: 1:2 on a 10 by 3 source gives
  2 by 3, whose height at that aspect is 4. `Edits.ResolvingAgain` gives the exact condition; a (turned) aspect at
  least as wide as high is always stable.
- A caller's crop whose corner plus size exceeds the largest int wraps in `Check` and is accepted outside the source
  (`Edits.WrappingCropIsAccepted`). `Edits.GivenCropKeepsItsWidth` gives the exact condition; automatic crops always
  lie inside, whatever wraps.
- `checkSegments` admits a title with a NUL, which the database refuses (`Chapters.Segments.Rewrite`), and a release
  time finer than a microsecond, which does not read back, so giving it again is never a no-op (`Chapters.ReadsBack`).
- After `ReplayAccountErasures` alone the startup check can still refuse: an intent with no receipt, no purging or
  purged row and no erased recipient is not among the purges it selects. `Replay.Engine.ReplayAccountErasures` gives
  the exact condition, and `Replay.IntentAloneIsReachable` a run that leads there; `ReplayErasureFences` always opens
  the check.
- An erased recipient whose id is white space only is selected by the replays but refused by the deletion, so
  `ReplayErasureFences` succeeds only without one (`Replay.Engine.ReplayErasureFences`).
- The change-only access history agrees with a full log, over every run of calls at given times, exactly when those
  times never fall (`AccessHistory.AgreesExactlyOnRisingClocks`).
- The progress server allows bodies of 2^20 bytes (`internal/mediastore/progress_http.go:143-145`), but the client's
  scanner must hold the field name and the newline too: a one-line body arrives exactly when it is shorter than 2^20
  less the six bytes of `data: ` (`WatchMedia.DeliveredExactlyWhenItFits`).
- Undated legacy ids are ordered by their timestamps modulo 2^48 (`ContentID.LegacyIDOrder`). While their milliseconds
  fit the Duration this is legacy-id order exactly for two ids on the same side of 1970
  (`ContentID.LegacyIDsAreOrdered`); past it, id 18446744073710 sorts before id 1 (`ContentID.OverflowOrderBreaks`).

## Model

| member | source | states |
|---|---|---|
| Erasure.StepKeepsInv | account_lifecycle.go:36-72 | every step of every interleaving keeps the two stores consistent: a cleaned-up account has a receipt and a lifecycle row, purged implies cleaned up, a running attempt works under the row's own key; also for every snapshot a restore may bring back |
| Erasure.RunKeepsInv | account_lifecycle.go:36-72 | the same over whole runs, restores included |
| Erasure.GateMeaning | erasure.go:14-44 | in every reachable state the startup query passes exactly when every intent is locally purging or purged and every receipt is locally complete |
| Erasure.GateStaysOpen | erasure.go:14-44 | once the check passes it keeps passing over any run without a restore |
| Erasure.PendingProvesRestore | erasure.go:14-44 | from empty stores, replay is demanded only if a catalog restore happened; otherwise deletions, crashes and overlaps never block startup |
| Erasure.LifecycleOnlyAdvances | account_lifecycle.go:45-49 | without a restore purged is absorbing, and a purging row can only become purged under its one key |
| Erasure.OneKeyBetweenRestores | account_lifecycle.go:36-53 | between restores every later attempt for an account that starts at all uses the first attempt's anonymous key, and none starts after purged |
| Erasure.LateAttemptChangesNothing | account_lifecycle.go:68-72 | once the account is purged, an overlapping attempt's remaining statements leave the catalog unchanged, and its completing ones the account store too |
| Erasure.RunScript | account_lifecycle.go:30-73 | an uninterrupted deletion from any consistent state ends purged, cleaned up, receipted, and fenced in an existing inbox |
| Erasure.RecoveryPeriodIsReversible | internal/contentstore/account_lifecycle.go:22-41 | marking and unmarking an account deleted leaves no trace, and neither touches a started purge |
| Erasure.RestoreAfterDeletionIsRefused | erasure.go:14-44 | rolling the catalog back over a finished deletion is refused at startup |
| Erasure.OnlyBlankIsRefused | account_lifecycle.go:32-44 | an id of white space only changes nothing, and any other id leaves an intent |
| Replay.SelectPage | account_erasure_receipts.go:138-153 | a page is the first subjects above the cursor in ascending order, none skipped |
| Replay.SubjectsAreRecorded | account_erasure_receipts.go:76-110 | the subject query is exactly the intents and the erased recipients, and covers the anonymization query |
| Replay.Engine.AnonymizeAccount | account_lifecycle.go:26-73 | whatever fails, what it did is a restore-free run of the protocol touching only this account's rows; success means purged, cleaned up and receipted, and is certain for a nonblank id when no statement fails |
| Replay.Engine.ReplayAnonymize | erasure.go:106-116 | success purges every account of the page, failure has a blank id or a failing statement in it; only those accounts are touched |
| Replay.Engine.ReplayErasureFences | erasure.go:46-67 | it terminates although its own work changes what the pages select from; success means every intent and erased recipient is purged and the startup check passes, failure has a blank id or a failing statement among them; no other account's rows change |
| Replay.Engine.ReplayAccountErasures | erasure.go:69-104 | it terminates; success purges every receipted account, every row that was purging and, with an inbox, every erased recipient; no other account's rows change; the startup check then passes exactly when every intent was one of these or purged |
| Replay.IntentAloneIsReachable | erasure.go:69-104 | a run from empty stores after which an intent has none of these, with or without a recovery-period marker |
| Replay.InterruptionIsReachable | account_lifecycle.go:36-52 | a crash after the begin transaction leaves a purging row and no attempt, without receipt or inbox |
| Replay.ErasedRecipientIsReachable | account_erasure_receipts.go:105-107 | AuthKit can erase a recipient ContentKit has no row for |
| Chapters.CheckSegments | internal/catalogstore/validate.go:328-365 | accepts exactly the manifests that are anchored or numeric throughout, with readable entries, no id or page twice and no overlap; what it accepts has nonnegative ascending positions and no shared marker |
| Chapters.MarkerInjective | internal/catalogstore/chapters.go:89-94 | two markers are equal only for the same page or the same numeric range |
| Chapters.Segments.Put | internal/migrations/postgres/0001_baseline.up.sql:1047-1060 | in a consistent table a row change goes through exactly when the table stays consistent; a refused one changes nothing |
| Chapters.ConsistentMeans | internal/migrations/postgres/0001_baseline.up.sql:1047-1060 | a consistent table has unique positions and start pages within each version, and in every row a numeric range or a start page |
| Chapters.Segments.List | internal/catalogstore/chapters.go:17-37 | the version's rows, each once, in position order |
| Chapters.Segments.FillIDs | internal/catalogstore/chapters.go:38-55 | accepted input gets pairwise distinct ids, each given and stored, stored under the marker, or generated; refusals name a foreign id or a repeat, which with fresh generated ids is a repeat of a stored one |
| Chapters.Segments.Park | internal/catalogstore/chapters.go:62-68 | in whatever order its rows change, no intermediate row breaks a constraint |
| Chapters.Segments.Upsert | internal/catalogstore/chapters.go:75-84 | a written chapter reads back as it was given, its release time cut to the microsecond; released_at is gone exactly when the row's release time changed to one after the clock; other rows are untouched and the table stays consistent; a title with a NUL is refused |
| Chapters.UpsertAdmits | internal/catalogstore/chapters.go:69-85 | writing the next chapter back among written and still parked ones breaks no constraint |
| Chapters.Segments.Rewrite | internal/catalogstore/chapters.go:59-85 | no delete, park or upsert ever breaks a constraint, and they succeed exactly when no title has a NUL; then the version's rows end as the given chapters, each written at its own reading of the clock, and no other version changes |
| Chapters.Segments.WriteChapters | internal/catalogstore/chapters.go:16-87 | never a constraint violation; rows change only when something changed and every title is free of NUL; a retained row loses released_at exactly when its release time changed to one after the clock; the stored chapters given back, or re-authored without ids under distinct markers, change nothing; under a shared marker the latter are refused |
| Chapters.ReadsBack | internal/catalogstore/chapters.go:69-85 | after a write the version reads back as the given chapters with release times cut to the microsecond, so as exactly the given ones when those are whole microseconds and only then; each retained chapter keeps released_at unless release_at changed to a future time |
| Chapters.MicrosFloor | internal/catalogstore/chapters.go:80-84 | cutting takes the greatest whole microsecond not above a time, and what is later than the clock after cutting is later than the clock itself |
| Chapters.ReauthoredIDs | internal/catalogstore/chapters.go:22-55 | chapters re-authored without ids resolve to their stored ids exactly when no two share a marker |
| Multipart.PartSizeBounds | client_media.go:169-176 | the chosen part size meets the minimum and the part count, and exceeds the maximum exactly when no size could do |
| Multipart.PartSizeIsNearest | client_media.go:169-173 | of all sizes within the server's bounds and part count, the chosen one is nearest 32 MiB |
| Multipart.PlanParts | client_media.go:166-184 | refused for size exactly above MaxPartSize times MaxParts, and succeeds exactly when moreover every part's digest can be read and no offset wraps; the parts tile the body in order, within all three bounds, each with the digest of its own bytes |
| Multipart.Resume | client_media.go:187-209 | accepts a listing exactly when it names known parts once each with matching size and digest, and totals their bytes |
| Multipart.MissingIsExact | client_media.go:213-218 | the pending parts are exactly those not landed, each once, ascending |
| Multipart.SliceIsRun | client_media.go:219-224 | between a batch's first and last number every number is its own or landed |
| Multipart.CheckSignatures | client_media.go:229-241 | a reply passes the range, landed, duplicate and count checks exactly when it signs each of the batch's numbers once, with a request, and nothing else |
| Multipart.SendBatch | client_media.go:242-254 | it finishes exactly when every upload is accepted; the missing-presign branch is unreachable, parts go out in order and progress reports each running total |
| Multipart.TransferParts | client_media.go:163-257 | it succeeds exactly when the plan does, a resumed listing is missing or agrees, and every batch of missing parts is signed exactly and accepted; whatever fails, only a prefix of the missing parts was sent |
| Multipart.DoneIsComplete | client_media.go:163-257 | then each missing part went out once in ascending order, no landed part did, and progress never fell and ended at the size |
| Aspects.ComputeGcd | media/aspect.go:50-55 | the loop computes Euclid's gcd |
| Aspects.GcdGreatest | media/aspect.go:50-55 | every common divisor divides it |
| Aspects.ReducedIsCoprime | media/aspect.go:46-47 | dividing by the gcd leaves a coprime pair in the same ratio |
| Aspects.ParsedIsValid | media/aspect.go:33-48 | whatever parses is native or a bounded ratio in lowest terms |
| Aspects.ParsedEqualIffSameRatio | media/aspect.go:33-48 | two W:H texts parse equal exactly when they write the same ratio |
| Aspects.RatioTextsParse | media/aspect.go:33-48 | "W:H" with integer terms, white space around, parses exactly when both lie in 1 to 10000, in lowest terms or not, to a valid aspect of the same ratio |
| Aspects.ParseInvertsShow | media/aspect.go:33-73 | parsing inverts printing on every valid aspect |
| Aspects.ScaleIsNearest | media/aspect.go:75-86 | scaling never exceeds rounding half up (at least 1), and is that exactly when 2*v*num + den does not wrap |
| Aspects.NarrowedFits | media/aspect.go:75-86 | when the full width is too tall, the width at the full height fits the source, even where products wrap |
| Aspects.LandscapeScalesBack | media/aspect.go:75-86 | with W >= H a height scaled to a width and back never grows, and is unchanged exactly when neither scaling wraps |
| Edits.Normalize | media/edit.go:32-43 | nil for an identity edit, else a deep copy |
| Edits.Resolve | media/edit.go:93-128 | computes the specified edit on fresh objects; the caller's edit is never mutated nor shared |
| Edits.ShowsExactly | media/edit.go:68-80 | for each quarter turn, the one image size whose pixels show the crop, each pixel once |
| Edits.ResolvesExactly | media/edit.go:93-128 | for every input: the rotation is kept, a native aspect keeps the crop, another fits its height or takes the automatic crop, with the aspect turned on a quarter turn; refused exactly by Check or when that image has fewer columns than the minimum |
| Edits.AutoCropFits | media/edit.go:111-118 | the automatic crop is nonempty, centred, inside the source, and either full width or exactly the height's width: the min with the width never bites |
| Edits.AutomaticAlwaysPassesCheck | media/edit.go:98-128 | with a known size and any quarter turn, the automatic crop always passes Check; only the minimum width can refuse |
| Edits.ResolvingAgain | media/edit.go:98-128 | resolving the result again returns it exactly when its width scales back within the height, else refuses it as outside; always stable for W >= H |
| Edits.PortraitCanBeRefusedAgain | media/edit.go:98-128 | an input for which the second resolve is refused |
| Edits.CheckAccepts | media/edit.go:47-66 | Check accepts exactly the quarter turns whose crop is nonempty, not negative and, in a known source, has each end inside or beyond the largest int |
| Edits.GivenCropKeepsItsWidth | media/edit.go:98-128 | an accepted caller's crop keeps corner, width and rotation, resolving again is the identity, and it lies inside a known source exactly when neither of its sums wraps |
| Edits.WrappingCropIsAccepted | media/edit.go:60-62 | a crop at the largest int is accepted on a 10 by 10 source |
| AccessHistory.Store.RecordAccessHistory | internal/catalogstore/access_history.go:9-34 | appends exactly the selected snapshots that differ from their latest one; the start time is set once |
| AccessHistory.SelectedIs | internal/catalogstore/access_history.go:20-32 | a version's selected snapshot is that of its facet, when its content is asked for |
| AccessHistory.LookupAfter | internal/catalogstore/access_history.go:20-32 | one call changes an as-of answer from its own time on, to the selected snapshot, and no earlier answer |
| AccessHistory.ChangeOnlyAgrees | internal/catalogstore/access_history.go:9-34 | with a non-falling clock every as-of lookup equals the one in a log of every snapshot, for all versions, times and runs |
| AccessHistory.RecordedHasNoRepeats | internal/catalogstore/access_history.go:9-34 | no two consecutive rows of a version are equal |
| AccessHistory.AgreesExactlyOnRisingClocks | internal/catalogstore/access_history.go:9-34 | the lookups agree over every run of calls at given times, all versions and as-of times, exactly when the times never fall |
| AccessHistory.FallingClockLosesAChange | internal/catalogstore/access_history.go:28-32 | for any fall of the clock, two calls at those times whose snapshot is missing from the change-only history |
| Sorting.SortedSetIs | internal/catalogstore/authz.go:141 | sorting and compacting gives the ids once each in strict order |
| Locking.EntersAscending | internal/catalogstore/authz.go:141-143 | a call locks exactly its ids that exist, each once, in ascending order |
| Locking.StepKeepsValid | internal/catalogstore/authz.go:141-143 | every call locks in ascending id order, and no row is held twice |
| Locking.NoDeadlock | internal/catalogstore/authz.go:141-143 | in every interleaving of any number of calls the wait-for graph has no cycle, and some call is not waiting |
| Locking.SomeCallGoesOn | internal/catalogstore/authz.go:141-143 | while calls are left, one of them has all its locks or is granted its next |
| Authz.EntityEditor | internal/catalogstore/authz.go:40-81 | fails exactly when the provider has no answer about one of the active channels with a scope; otherwise answers exactly for those, each with the provider's own answer |
| Authz.GrantsFor | internal/catalogstore/authz.go:111-134 | fails exactly when a needed provider answer is missing; otherwise each grant is the provider's answer about an entity the rows named when asked |
| Authz.Authorize | internal/catalogstore/authz.go:136-177 | missing ids answer first; otherwise refused exactly when some locked row has no verdict |
| Authz.AuthorizeWrite | internal/catalogstore/authz.go:100-177 | rows may change arbitrarily after the provider was asked: it succeeds exactly when the needed answers were given, every id exists, and each owner under the lock has an authority the provider gave about that owner; every other outcome is exact too |
| Authz.AuthorityIs | internal/catalogstore/authz.go:40-81 | the authority in full: anonymous actors, inactive or other entities, entities without a scope, owners not named when asked, and creatorship alone give none |
| ContentID.V7 | contentref/id.go:97-105 | the shifted-timestamp array writes and the bit masks give the RFC 9562 layout |
| ContentID.V7IsValid | contentref/id.go:22-47 | every result passes ValidateID, whatever the time and the other bytes |
| ContentID.V7IsOrdered | contentref/id.go:97-105 | for 48-bit timestamps a smaller one gives a smaller id string |
| ContentID.V7Order | contentref/id.go:97-105 | any two ids are ordered by timestamp modulo 2^48, and by their other bytes within one millisecond |
| ContentID.LegacyIDOrder | contentref/id.go:63-83 | any two undated legacy ids are valid and ordered by their wrapped timestamps, and by their hashes within one millisecond |
| ContentID.LegacyIDsAreOrdered | contentref/id.go:63-83 | while the milliseconds fit the Duration they are in legacy-id order exactly when both lie on the same side of 1970 |
| ContentID.OverflowOrderBreaks | contentref/id.go:76-77 | past the Duration an id dates to the epoch itself and sorts before id 1 |
| ContentID.BeforeEpochOrderBreaks | contentref/id.go:76-77 | the ids of the last millisecond before 1970 and the first one of it are reversed, whatever the other bytes |
| IDReading.IDReadsBack | contentref/id.go:97-105 | an id carries its timestamp modulo 2^48 and every other bit it was made of |
| IDReading.ValidIDsAreV7 | contentref/id.go:22-47 | every string ValidateID accepts is such an id |
| IDReading.ValidateID | contentref/id.go:26-47 | the scan accepts exactly the valid ids |
| IDReading.LegacyIDCarriesItsTime | contentref/id.go:72-83 | a dated legacy id carries its own timestamp, an undated one 2010-01-01 plus its legacy id in milliseconds, and both the hash of "namespace/kind/id" |
| IDReading.LegacyTextIsUnique | contentref/id.go:80 | the hashed text is read in one way only, even when a kind holds slashes |
| IDReading.LegacyRowsAreToldApart | contentref/id.go:63-83 | rows that differ in namespace, kind or id have different ids under some hash, whatever their creation times |
| IDReading.CheckNamespace | contentref/id.go:85-95 | the scan accepts exactly the valid namespaces, which hold no slash |
| Keys.ParseInvertsShow | access/keys.go:80-151 | every constructible key fits the bound and parses back from its text |
| Keys.ShowInvertsParse | access/keys.go:80-103 | every accepted string is the text of the constructible key it parses to |
| Keys.BoundAttained | access/keys.go:34-37 | the bound is attained |
| Keys.ParsesExactly | access/keys.go:80-103 | each kind of key is parsed from exactly its text in the grammar |
| Keys.CheckTenant | access/keys.go:186-197 | the scan accepts exactly 1 to 64 of a-z, 0-9, _ and - |
| Keys.PrefixesIdentify | access/keys.go:74-78 | for any string as tenant, a key starts with its content or channel prefix exactly when it is that tenant's key of that kind |
| ContentURL.ReadCrockford | contenturl/code.go:53-79 | the early-stopping loop accepts exactly the spellings whose canonical reading is a code, and returns it |
| ContentURL.ParsesItsSpellings | contenturl/code.go:41-51 | a string parses to a code exactly when it spells it, in any case, with O for 0 and I or L for 1, hyphens anywhere |
| ContentURL.CodesAreCanonical | contenturl/code.go:35-85 | valid is the canonical form, and whatever parses parses to a valid code |
| ContentURL.Validate | contenturl/path.go:35-57 | accepts exactly nonempty lowercase segment routes and languages, no language a route |
| ContentURL.SegmentIs | contenturl/path.go:33 | a segment starts with a letter or digit and goes on with letters, digits, _ and - |
| ContentURL.WrittenParses | contenturl/path.go:92-132 | for validated routes the documented form parses to exactly its parts, in any spelling of the code, under a language, one stray segment or neither, with or without a slash at the end |
| ContentURL.ParsedIsWritten | contenturl/path.go:92-132 | every accepted path is written so |
| ContentURL.CanonicalParses | contenturl/path.go:92-132 | the documented form with a canonical code parses to exactly its parts |
| ContentURL.CanonicalIsFixedPoint | contenturl/path.go:92-132 | any accepted path, reprinted under any of the languages or none, parses to the same route, code and slug |
| WatchMedia.Watcher.DispatchEvent | client_media_progress.go:48-72 | a blank line delivers one update exactly for a known event whose data is not empty and, if it carries a read, decodes; the cursor stays, and nothing is left for the next event |
| WatchMedia.Watcher.Watch | client_media_progress.go:45-109 | reading line by line is the specified run, with at most 2^20+1 bytes of data buffered |
| WatchMedia.BufferIsBounded | client_media_progress.go:93-100 | after any lines at all at most 2^20+1 bytes of data are buffered |
| WatchMedia.DataIsJoined | client_media_progress.go:93-100 | data whose first line is not empty is delivered exactly |
| WatchMedia.IgnoredLines | client_media_progress.go:78-92 | comments, unknown fields, lines without a colon and ids with a NUL change nothing |
| WatchMedia.UnterminatedDeliversNothing | client_media_progress.go:73-102 | lines without a blank one deliver nothing, and end the stream only by exceeding the data limit |
| WatchMedia.WatchedFrames | client_media_progress.go:45-109 | for any printed events that fit the reader's own limits, with or without a space after the colon and under either line end, and any unterminated rest: exactly the updates up to the first failure to decode or receive or the first error event are delivered, with that outcome, and the rest is dropped |
| WatchMedia.ReceivedIsPrefix | client_media_progress.go:48-72 | these are a prefix of the known events up to the first error event, and all of them for a host that decodes and receives everything |
| WatchMedia.DeliveredExactlyWhenItFits | client_media_progress.go:45-109 | a one-line known event is delivered exactly when its body leaves room for the field name in the scanner's buffer, else it ends the stream |
| WatchMedia.LargestBodiesAreLost | client_media_progress.go:45-46 | a longer body ends the stream undelivered for any host |
| Identity.ValidateNames | entities/names.go:23-51 | accepts exactly when every name normalizes and no language has two canonical names; gives the normal forms in order |
| Identity.NormalNameIs | entities/names.go:26-38 | a name normalizes to a stored name exactly when it spells it: lower-case language of at most 16 bytes, "name" or "alias", 1 to 512 characters without white space at the ends |
| Identity.SameNamesMeaning | entities/import.go:33-50 | for NUL-free stored names: equal exactly when the stored names are distinct and are the given ones, repeats aside |
| Identity.ValidateText | entities/write.go:64-82 | accepts exactly when every text normalizes and no language repeats |
| Identity.NormalTextIs | entities/write.go:67-79 | a text normalizes to a stored text exactly when it spells it, within the limits |
| Identity.MatchesIdentity | entities/identity.go:3-26 | true exactly when the normalized names and per-language texts equal the stored ones |
| Identity.OnlyNormalFormsMatter | entities/identity.go:3-26 | the answer depends only on the set of normalized names and the normalized texts in any order |
| Identity.NormalNameForgives | entities/names.go:26-38 | language casing, surrounding white space and an omitted alias kind do not change a name's normal form |
| Identity.NormalTextForgives | entities/write.go:67-79 | language casing and surrounding white space do not change a text's normal form |
| Identity.IdentityForgives | entities/identity.go:3-26 | reordering and repeating names, reordering texts, language casing, surrounding white space and omitted alias kinds together leave the answer unchanged |

## Left out

- Other content effects of anonymization (comments, votes, creators), the signal plane, searches, avatars and providers: they change neither store's deletion records, so they are one step that may fail.
- Replay.Engine: other processes working on the same account while an operator replay runs, since a replay precedes serving.
- Erasure.Step: an attempt that outlives a catalog restore; a restore ends the attempts running on the catalog.
- Chapters.Segments.Put: the range check's path grammar for start pages (length, slashes, dots), because only nonemptiness and the absence of NUL matter to markers.
- Multipart.PlanParts: 32-bit part numbers, which would wrap past 2^31-1 parts.
- Multipart.TransferParts: hashing, HTTP and cancellation, which are answers of the digest and remote parameters.
- Hashing an edit (`Edit.Hash`), which adds no property of its own.
- Authz.Authorize: recordBeforeEdit and locks taken after authorize by the write itself.
- Authz.GrantsFor: how an actor's account, permissions and author entities are found; they are the provider's answers.
- ContentID.V7: the random bytes and SHA-256, which are arbitrary bytes here.
- Identity.MatchesIdentity: stored records with a NUL, a repeated name or a repeated language, which the tables do not hold.
- ContentURL: Slugify, AcceptLanguage, the router's redirects and the code store.
- WatchMedia.Watcher.Watch: JSON decoding, which is the host's yes-or-no answer; reconnection and cancellation.
- Client transport, generated wire types, configuration checks and unseen stores: no invariants beyond those used above.
