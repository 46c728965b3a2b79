# Sandbox factory: models and proofs

Dafny models of five parts of the sandbox factory and proofs of what they
promise. `dafny verify dfyconfig.toml` checks the whole project.

| part | modules |
|---|---|
| Origin DNS: concurrent invocations publish the API tasks' addresses in one record | `OriginTasks`, `OriginDns`, `OriginRecord`, `OriginHandler`, `EventTime` |
| Change push channel: the hub and each stream's chain of writes | `RunChangeHub`, `EventStream` |
| Signed connection state, and the redirect behind it | `ConnectState`, `Base64Url`, `Json`, `Redirect`, `UrlPath`, `FormUrlencoded` |
| Accounts and workspaces: hooks as guards, proven addresses, handles | `Workspaces`, `ProvenEmails`, `Handles`, `CreateOrganization` |
| Specs, points, dates and clone URLs | `Scenarios`, `Revisions`, `RevisionContents`, `ScenarioIds`, `SpecDiff`, `RubricPoints`, `IssueDates`, `CloneTarget`, `Regex` |

`Text` and `CivilTime` hold what several of them use.

Code that changes state in place is a class or a loop whose contract ties it
to a function of the old state (`OriginZone`, `Hub`, `ListenerSet`, `Writer`,
`Url`, `RequestState`, `Server`, `IdSource`); what the sources promise is then
proved of those functions, over every run or every input. Concurrency is a
step system whose runs are arbitrary interleavings.

## What does not hold, and when it does

- **Marker order** (infra/lambda/origin_dns.py:141-147 says the newest event
  wins, bar a window). `OriginDns.OrderBreaksExactly` says exactly when a write
  goes back in time. `OriginHandler.RaceReverses` builds such a run for any two
  times, and `OriginHandler.FailedReadReverses` one in which nobody else writes
  and the marker read failed; `OriginHandler.StandingDownKeepsAWrongRecord`
  shows that standing down settles nothing; `OriginHandler.AloneSettlesExactly`
  says when an undisturbed invocation leaves the record right.
- **Stop functions** (apps/api/src/events.ts:53-56). Called a second time after
  its set left the map, one silences a subscription still live
  (`RunChangeHub.SecondStopSilencesAnother`);
  `RunChangeHub.Hub.Stop` says when a call removes its own pair and no other.
  The routes call each once.
- **Scenario ids and marks** (apps/web/src/ProposalSpec.tsx:409-413 says
  scenarios keep their ids across revisions; packages/core/src/pricing/spec.ts:141-145
  says ids are stable only within one). A draft may hold two scenarios of one
  kind and title, since packages/shared/src/spec.ts:82-87 refuses repeated ids
  only. Over one change ids mean what keys mean if and only if the revision
  repeats no key (`Revisions.IdsFollowKeysExactly`, `Revisions.SameKeyTwice`).
  An added mark is always right by key (`SpecDiff.AddedMarkFollowsKey`); removed
  marks are over every change if and only if no scenario shown shares its key
  (`SpecDiff.MarksFollowKeysExactly`, `SpecDiff.TwinIsMarkedRemoved`).
- **Past the last id** (packages/core/src/pricing/respec.ts:127-134 says the
  lowest free number is taken past `s999`). The test for it comes before the
  search, not after, so an expansion or an answer that runs over the end numbers
  a scenario `s1000`, which packages/shared/src/spec.ts:39-40 refuses. It stays
  in range if and only if the highest number is past the end already or the new
  scenarios fit behind it (`ScenarioIds.ExpansionInRangeExactly`,
  `ScenarioIds.AnswerInRangeExactly`); `ScenarioIds.ComesPastTheLast` is a run
  from a draft of one scenario that gets there.
- **Ids since sizing.** Over two changes an id can come back on another scenario
  (`Revisions.IdsComeBack`). The view since sizing then shows it twice, exactly
  then (`SpecDiff.IdsRepeatExactly`, `SpecDiff.IdReturnsSinceSized`), and the
  dialog finds entries by id alone (apps/web/src/RubricScenarios.tsx:576-585);
  an id with its mark is unique (`SpecDiff.MarkedIdsAreUnique`).
- **The test-cases and extra-checks lists** (RubricScenarios.tsx:183-188) do not
  ask for scored entries, so with a diff on show they can open onto more than
  the factor counts (`RubricPoints.TestListMatchesCoveredDiffs`,
  `RubricPoints.GainedTestIsListed`; `RubricPoints.ExtraListMatchesExactly`,
  `RubricPoints.GainedCheckIsListed`).
- **Names ending in `.git`** (apps/extension/src/task.ts:65-69) clone into a
  shorter folder unless the URL ends in `.git` itself
  (`CloneTarget.HttpsCloneReadsBack`, `CloneTarget.NameLosesItsOwnGit`).
- **Years 0 to 99** (apps/web/src/IssueSpec.tsx:50-55, 84-86) are taken for 1900
  to 1999. A bare date reads back, and its words are those of its own distance,
  exactly from the year 100 on (`IssueDates.BareDateReadsBack`,
  `IssueDates.BareWordsAreTrueExactly`, `IssueDates.NinetyNineIsMisread`); for
  timestamps too the words are true exactly outside those years
  (`IssueDates.WordsAreTrueExactly`), and two dates keep their order exactly when
  the earlier is not taken for a day past the later
  (`IssueDates.FartherReadsFartherExactly`). The warning is still the calendar's
  at every today from 2000 on (`IssueDates.OverdueMeansBefore`);
  `IssueDates.OverdueMeansBeforeExactly` says when it is at any today outside
  those years.
- **An address asserted during a lookup** (apps/api/src/auth.ts:533-539) is
  discarded with the entry when the lookup answers: exactly when it was asserted
  after the account was created and no other account of the provider used it up
  before the answer (`ProvenEmails.DiscardedExactly`,
  `ProvenEmails.AssertedTooLate`).

## Model

| member | source | states |
|---|---|---|
| `OriginTasks.AddressesAreServed` | infra/lambda/origin_dns.py:29-67 | an address is read exactly when some described task is RUNNING, in the API's group, and has it on the first interface of the id its last such detail names |
| `OriginTasks.PublicIp` | infra/lambda/origin_dns.py:29-45 | an address is answered if and only if it is that of the first interface under the id of the last `networkInterfaceId` detail of the task's elastic interface attachments |
| `OriginTasks.RunningTaskIps` | infra/lambda/origin_dns.py:48-67 | the loop collects the addresses of exactly the running tasks of the API's group that have one |
| `OriginDns.LastOwnStep` | infra/lambda/origin_dns.py:106-185 | whatever interleaves, an invocation is where its own last call left it |
| `OriginDns.OrderBreaksExactly` | infra/lambda/origin_dns.py:81-103 | a write replaces a newer marker if and only if its marker read failed with nobody writing since, or the last writer since then carried a newer time |
| `OriginDns.MarkerNeverDecreases` | infra/lambda/origin_dns.py:141-182 | with every marker read answered and undisturbed up to its write, markers never decrease over the whole run |
| `OriginRecord.PublishedIsJustified` | infra/lambda/origin_dns.py:107-182 | after any write of any run, record and marker are one invocation's, and the set is non-empty and was running at both of its reads |
| `OriginRecord.RecordIsNeverEmptied` | infra/lambda/origin_dns.py:109-114 | no interleaving ever deletes or empties a record that had an address |
| `OriginRecord.MarkerAdvancesInTime` | infra/lambda/origin_dns.py:73-78 | with event times as ECS writes them, an undisturbed run's markers advance as instants, not only as strings |
| `OriginRecord.Converges` | infra/lambda/origin_dns.py:106-185 | with the running set steady and non-empty, no other writer and no newer marker, an invocation ends with the record right by whichever exit, unless a call raises |
| `OriginRecord.NoneTurnsStale` | infra/lambda/origin_dns.py:134-139 | while the set holds and none in flight has passed its re-read with another, none does and every write publishes it |
| `OriginRecord.SettlesExactly` | infra/lambda/origin_dns.py:116-182 | under the same conditions the record is right at the end if and only if it was right at the start or anybody wrote |
| `OriginRecord.SettledByOneExit` | infra/lambda/origin_dns.py:126-137 | one invocation begun meanwhile that ends updated or unchanged settles the record for every later step |
| `OriginHandler.Handler` | infra/lambda/origin_dns.py:106-185 | the handler's reads, early returns and write are exactly the steps of the system, outcome and zone |
| `OriginHandler.EveryExit` | infra/lambda/origin_dns.py:106-185 | each of the six exits and exactly when it is taken, whatever each call sees and however it goes, and the zone behind it |
| `OriginHandler.RaceReverses` | infra/lambda/origin_dns.py:144-147 | for any world and any two times there is a run, every call answered, in which the older write lands last |
| `OriginHandler.FailedReadReverses` | infra/lambda/origin_dns.py:81-103 | with nobody else writing, an invocation whose marker read failed writes an older time over a newer one |
| `OriginHandler.StandingDownKeepsAWrongRecord` | infra/lambda/origin_dns.py:149-151 | an invocation older than the marker leaves a wrong record wrong, with the running set steady |
| `OriginHandler.AloneSettlesExactly` | infra/lambda/origin_dns.py:106-185 | undisturbed, answered and with the set steady, an invocation leaves the record right if and only if it was right or the marker was not newer |
| `EventTime.StringOrderIsTimeOrder` | infra/lambda/origin_dns.py:73-103 | on every valid event time, string comparison is the order of the instants, leap years included, and equality is equality |
| `CivilTime.DayOrder` | apps/web/src/IssueSpec.tsx:84-86 | the civil day number is strictly monotone over the calendar |
| `RunChangeHub.Hub.Subscribe` | apps/api/src/events.ts:47-58 | the relation gains exactly that pair, and the closure's captured set is the one in the map |
| `RunChangeHub.Hub.Stop` | apps/api/src/events.ts:54-57 | what a stop function does in place and after its set was replaced, in full; and it removes its own pair and no other if and only if its set is in the map, or nothing else of the workspace is there to lose or keep |
| `RunChangeHub.Hub.Open` | apps/api/src/events.ts:107-116 | used as the routes use it, the pairs grow by one and every live closure stays in place |
| `RunChangeHub.Hub.Close` | apps/api/src/events.ts:133-134 | and shrink by exactly that pair |
| `RunChangeHub.Hub.Publish` | apps/api/src/events.ts:39-46 | calls exactly the listeners paired with the workspace, each once, in the order they subscribed |
| `RunChangeHub.Hub.Size` | apps/api/src/events.ts:59-63 | counts the pairs |
| `RunChangeHub.JoinThenLeave` | apps/api/src/events.ts:47-57 | subscribing and then stopping gives the relation back, with no empty set kept |
| `RunChangeHub.JoinedAtTheEnd` | apps/api/src/events.ts:47-53 | a newcomer is called last, one there already keeps their place, and no other workspace is touched |
| `RunChangeHub.LeftKeepsOrder` | apps/api/src/events.ts:54-57 | those who stay keep their order |
| `RunChangeHub.LeftPairs` | apps/api/src/events.ts:54-57 | dropping an emptied set with its key removes one pair and no other |
| `RunChangeHub.PairsGrow` | apps/api/src/events.ts:59-63 | a workspace's set adds its size to the count |
| `RunChangeHub.SecondStopSilencesAnother` | apps/api/src/events.ts:54-57 | a second call of a stop function unsubscribes another listener that is still live |
| `EventStream.AlwaysFaithful` | apps/api/src/events.ts:101-135 | after every trace each stream's queue, links and output are what the trace made due, asked, sent and failed |
| `EventStream.WritesExactlyWhatIsDue` | apps/api/src/events.ts:101-135 | what a stream wrote is, in publish order and once each, exactly what was due to it and sent without failing |
| `EventStream.QueuesWhatComes` | apps/api/src/events.ts:101-135 | a stream queues, in the order of the trace and nothing else: `ready` as it opens, each change published to its workspace while it was open, a keepalive for each tick |
| `EventStream.WritesWhatIsSent` | apps/api/src/events.ts:108-130 | what is written is, in queue order, a frame for each task whose send did not fail, a change's carrying that change's kind and id |
| `EventStream.OnlyChangesAreAsked` | apps/api/src/events.ts:108-114 | the visibility rule is asked only about changes, and only where there is one |
| `EventStream.ReadyIsFirst` | apps/api/src/events.ts:124-132 | `ready` is due first and once, then only keepalives and its own workspace's changes |
| `EventStream.ReadyIsWrittenFirst` | apps/api/src/events.ts:124-132 | `ready` is written if and only if its send did not fail, and then first and once |
| `EventStream.OnlyShownIsWritten` | apps/api/src/events.ts:108-118 | a change is sent only where the visibility rule answered yes for it |
| `EventStream.OneAtATime` | apps/api/src/events.ts:102-106 | at most one send is in flight and all before it have settled |
| `EventStream.FailureNeverBlocks` | apps/api/src/events.ts:104-106 | whatever failed or threw before, a stream with work left has an enabled step whatever its outcome |
| `EventStream.StepsMakeProgress` | apps/api/src/events.ts:104-106 | each step of a link brings its stream closer to settled and moves no other stream |
| `EventStream.SettledMeansDecided` | apps/api/src/events.ts:104-118 | with nothing pending, everything due was written, or its send failed, or it was hidden, or its question threw |
| `EventStream.MovedAmongOthers` | apps/api/src/events.ts:101-135 | a step of one stream among others is that stream's own step |
| `EventStream.PairsAreOpenStreams` | apps/api/src/events.ts:107-134 | after every trace the hub's pairs are exactly the open streams, each with its own workspace |
| `EventStream.PublishReachesHubListeners` | apps/api/src/events.ts:39-57 | a change is queued on exactly the streams the hub calls for its workspace, and no other changes |
| `EventStream.Writer.Write` | apps/api/src/events.ts:104-106 | reassigning the chain appends one waiting send and disturbs nothing in flight |
| `EventStream.Writer.Start` | apps/api/src/events.ts:104-118 | a chained send starts by asking, when there is a rule and a change, as the step system says |
| `EventStream.Writer.Sent` | apps/api/src/events.ts:104-118 | a send that fails settles its link and writes nothing |
| `ConnectState.OutcomeOfSigned` | apps/api/src/connect-state.ts:97-142 | for a signed string the outcome is expired outside the window, else wrong purpose, else wrong user, else the state |
| `ConnectState.UnsignedIsRefused` | apps/api/src/connect-state.ts:97-111 | a string that is no body and its signature is refused for its signature if a dot stands behind its first character, else as malformed |
| `ConnectState.StateExactly` | apps/api/src/connect-state.ts:163-190 | a payload is a state if and only if its six properties are there with their types |
| `ConnectState.MintedText` | apps/api/src/connect-state.ts:65-82 | a minted string is the signing of the JSON text of its six members, in order |
| `ConnectState.OneReading` | apps/api/src/connect-state.ts:101-106 | no string is two bodies' signing |
| `ConnectState.AcceptedExactly` | apps/api/src/connect-state.ts:90-143 | any string is accepted as a state if and only if it is a body and its signature, the body carries that state, and it is in its window, for this purpose and user |
| `ConnectState.MintedThenVerified` | apps/api/src/connect-state.ts:65-143 | verifying a minted string gives the full outcome, every field unchanged, for every state, purpose, user and time |
| `Base64Url.EncodeReadsBack` | apps/api/src/connect-state.ts:145-161 | base64url decodes back to the bytes |
| `Base64Url.Utf8Injective` | apps/api/src/connect-state.ts:149-153 | comparing UTF-8 bytes compares the strings |
| `Base64Url.TextReadsBack` | apps/api/src/connect-state.ts:155-161 | text survives UTF-8 and base64url |
| `Json.RecordReadsBack` | apps/api/src/connect-state.ts:71-115 | a flat record as printed is read back member by member by the full JSON reader |
| `Json.StringReadsBack` | apps/api/src/connect-state.ts:79-115 | every string, escapes included, reads back |
| `Redirect.RedirectTarget` | apps/api/src/connect-state.ts:222-242 | the loop over a `URL` object ends with the app's origin, the stored pathname and the query with every outcome set |
| `Redirect.TargetStaysOnOrigin` | apps/api/src/connect-state.ts:227-241 | read back as a URL, the target has the app's origin for every path, dots, backslashes and all, a pathname in normal form, and the written query |
| `Redirect.OutcomesReplaceStaleOnes` | apps/api/src/connect-state.ts:235-240 | read back, each outcome is there once with its value whatever characters it holds, and every other pair of the path's own query keeps its value and order |
| `Redirect.QueryReadsBack` | apps/api/src/connect-state.ts:235-240 | a query written from any pairs, separators and all, reads back as those pairs |
| `Redirect.SetPairPlaces` | apps/api/src/connect-state.ts:238-240 | an outcome takes the first place of its name, or the last of all |
| `Redirect.DropTakesOut` | apps/api/src/connect-state.ts:238-240 | and the later pairs of that name go, the others in order |
| `Redirect.PartsOfPath` | apps/api/src/connect-state.ts:227-237 | a path is its pathname, what follows a first `?` and what follows a first `#` |
| `Redirect.EscapedReadsAlike` | apps/api/src/connect-state.ts:227-235 | the escaping a URL puts on its query changes none of the pairs read from it |
| `FormUrlencoded.ReadsBack` | apps/api/src/connect-state.ts:235-240 | the form encoding of every string decodes to it and holds no separator |
| `FormUrlencoded.EscapeKeepsBytes` | apps/api/src/connect-state.ts:227-235 | escaping a query spells the same bytes |
| `Redirect.SafePathIsKept` | apps/api/src/connect-state.ts:199-208 | what the guard lets through stays on the app's origin when put behind it, and a redirect there keeps its own text up to its query or fragment if and only if that is in normal form |
| `Redirect.GuardedExactly` | apps/api/src/connect-state.ts:199-208 | the guard lets through exactly one leading slash, and no colon or backslash anywhere; all else is the fallback |
| `UrlPath.StoredIsNormal` | apps/api/src/connect-state.ts:227-233 | whatever pathname is assigned, the stored one starts with a slash and has no dot segment, backslash or character to escape |
| `UrlPath.KeptExactly` | apps/api/src/connect-state.ts:227-233 | a pathname is stored as it is if and only if it is in that form, and storing again changes nothing |
| `UrlPath.DotsStepBack` | apps/api/src/connect-state.ts:227-233 | two dots step back over the segment before them |
| `Workspaces.StepKeeps` | apps/api/src/auth.ts:628-742 | every endpoint, refused or not, keeps handles unique and stored, and personal workspaces their owner's alone |
| `Workspaces.RunKeeps` | apps/api/src/auth.ts:172-193 | so does every run of signups, creates, renames, invitations, accepts, direct adds and deletes |
| `Workspaces.EveryRunHolds` | apps/api/src/auth.ts:172-193 | and it holds after every run from an empty database |
| `Workspaces.HandlesAreUnique` | apps/api/src/auth.ts:172-193 | after any run from an empty database no two workspaces hold one handle, and each is in stored form |
| `Workspaces.PersonalForGood` | apps/api/src/auth.ts:677-742 | after any run a personal workspace is still its owner's, with no other member, nobody invited, under their username |
| `Workspaces.OneStepKeepsPersonal` | apps/api/src/auth.ts:236-247 | no endpoint deletes it, and none but a username change moves its handle |
| `Workspaces.RenameSucceedsExactly` | apps/api/src/auth.ts:650-683 | a rename is stored if and only if the workspace is a team and nobody else holds the normalised handle, and how each other is refused |
| `Workspaces.RenameStores` | apps/api/src/auth.ts:650-683 | it stores the normalised handle on that workspace and changes nothing else |
| `Workspaces.CreateSucceedsExactly` | apps/api/src/auth.ts:628-639 | a workspace is created if and only if the handle is valid and nobody holds it |
| `Workspaces.CreateStores` | apps/api/src/auth.ts:628-639 | a new workspace is a team under the normalised handle with its creator as member, and nothing else changes |
| `Workspaces.SharedExactly` | apps/api/src/auth.ts:705-742 | only teams are shared and deleted, and an invitation is accepted where there is one |
| `Workspaces.InviteStores` | apps/api/src/auth.ts:705-715 | inviting stores the address trimmed and lowercased, and nothing else |
| `Workspaces.AcceptStores` | apps/api/src/auth.ts:700-715 | accepting makes a member, uses up that invitation and changes nothing else |
| `Workspaces.AddStores` | apps/api/src/auth.ts:731-741 | adding directly makes a member and changes nothing else |
| `Workspaces.DeleteStores` | apps/api/src/auth.ts:716-729 | deleting takes the workspace and its own invitations |
| `Workspaces.ChangeUsernameKeeps` | packages/db/src/emails.ts:461-495 | a username change carries the personal workspace's handle along and takes nobody's |
| `Workspaces.ChangeUsernameSucceedsExactly` | packages/db/src/emails.ts:461-495 | a username changes if and only if it is valid and no other user and no team goes by it |
| `Workspaces.ChangeUsernameStores` | packages/db/src/emails.ts:461-495 | it renames the user and their personal workspace and nothing else |
| `Workspaces.SignupStores` | apps/api/src/auth.ts:468-480 | a signup is stored exactly for a new user under a valid handle nobody holds |
| `Workspaces.PersonalIsKept` | packages/db/src/organizations.ts:223-270 | a user who has a personal workspace keeps it, joining it if the membership is written |
| `Workspaces.PersonalIsCreated` | packages/db/src/organizations.ts:223-270 | one who has none gets it, named as they are |
| `ProvenEmails.RequestState.Validate` | apps/api/src/auth.ts:327-338 | captures the address lowercased under its provider, or nothing |
| `ProvenEmails.RequestState.AfterAccountCreate` | apps/api/src/auth.ts:528-539 | up to the lookup: a captured address is recorded and spent, and a lookup is awaited exactly when there is none and one can be made |
| `ProvenEmails.RequestState.AfterLookup` | apps/api/src/auth.ts:533-547 | past it: the answer is recorded, whatever was captured meanwhile is spent, and the lookup is awaited no more |
| `ProvenEmails.RecordedExactly` | apps/api/src/auth.ts:528-547 | in any interleaving, what is recorded of a created account is, once, the last address its provider had asserted in that request, lowercased; with none, what its lookup answered, or nothing |
| `ProvenEmails.OnlyCreatedIsRecorded` | apps/api/src/auth.ts:528-547 | nothing is recorded of an account nobody created |
| `ProvenEmails.LookupWasDue` | apps/api/src/auth.ts:533-538 | a lookup ends once, and only for an account created before in that request with nothing asserted then |
| `ProvenEmails.DiscardedExactly` | apps/api/src/auth.ts:533-539 | a lookup's answer discards an asserted address if and only if it was asserted while the lookup was awaited and no other account of the provider used it up |
| `ProvenEmails.AssertedTooLate` | apps/api/src/auth.ts:533-539 | a run in which an address asserted during a lookup is recorded neither then nor for the next account |
| `ProvenEmails.RequestsDoNotInterfere` | apps/api/src/auth.ts:33-46 | a request can do alone what it did among others, and records, holds and awaits the same |
| `Handles.AcceptedHandle` | packages/core/src/handle.ts:83-98 | an accepted handle is the typed text lowercased and is its own normal form |
| `Handles.NormalizesExactly` | packages/core/src/handle.ts:83-98 | white space around does not matter; three to thirty letters, digits, underscores and hyphens are accepted, shown as typed and stored with capitals lowered; nothing else is |
| `Handles.TypedWithin` | packages/core/src/handle.ts:83-85 | every text is white space or has white space around what is typed |
| `Handles.SpaceIsRefused` | packages/core/src/handle.ts:83-89 | white space alone is refused |
| `Handles.HandleIsItsOwnForm` | packages/core/src/handle.ts:58-98 | a text normalises to itself if and only if it is a valid stored handle |
| `Handles.StemIsHandle` | packages/core/src/handle.ts:136-150 | every stem of every text is a valid handle with no hyphen at either end |
| `Handles.StemIsStable` | packages/core/src/handle.ts:136-150 | stemming a stem changes nothing |
| `Handles.StemExactly` | packages/core/src/handle.ts:136-150 | a stem is the collapsed text stripped, cut to thirty and stripped again, and padded below three |
| `Handles.GapIsHyphen` | packages/core/src/handle.ts:139-141 | each run of disallowed characters between allowed ones becomes one hyphen |
| `Handles.StrippedAreHyphens` | packages/core/src/handle.ts:110-120 | what is stripped is exactly the hyphens at either end |
| `Handles.TrimHyphensInPlace` | packages/core/src/handle.ts:110-120 | the two index loops strip exactly the leading and trailing hyphens |
| `CreateOrganization.Submit` | apps/web/src/Organization.tsx:989-1015 | asks for the slug itself first and for its longest prefixes with `-2` to `-5` after; where requests are answered, the first free one is stored and opened, or all five are taken and that is said; other refusals and requests that throw decide at once |
| `CreateOrganization.Attempts` | apps/web/src/Organization.tsx:989-1012 | the loop: another request exactly while one is refused as taken and attempts are left |
| `CreateOrganization.FirstFreeIsStored` | apps/web/src/Organization.tsx:989-1012 | with every request answered, the first free of the five candidates is stored and opened, or all are taken, nothing is stored and that is said |
| `CreateOrganization.RetriedMeansTaken` | apps/web/src/Organization.tsx:993-1004 | an answered attempt is retried if and only if its candidate is taken |
| `CreateOrganization.Request` | apps/api/src/auth.ts:628-639 | asked for a handle, the endpoint stores that very one, or refuses it as taken or at the limit, or the request is lost with or without having landed |
| `CreateOrganization.CreateStoresNormalForm` | apps/api/src/auth.ts:628-639 | what is stored and answered is the handle in normal form, not as typed |
| `CreateOrganization.SuffixesDiffer` | apps/web/src/Organization.tsx:941-944 | suffixed candidates of one stem differ for all attempt numbers |
| `CreateOrganization.SuffixIsStem` | apps/web/src/Organization.tsx:941-944 | a suffixed candidate is the bare stem if and only if a full-length stem already ends in that suffix |
| `CreateOrganization.CandidateIsHandle` | apps/web/src/Organization.tsx:989-994 | every candidate the form tries is a valid handle |
| `CreateOrganization.RecognisedExactly` | apps/web/src/Organization.tsx:927-932 | a failure is read as a taken handle if and only if it has that code, or the phrase anywhere in its message in any case |
| `CreateOrganization.TakenIsRecognised` | apps/web/src/Organization.tsx:927-932 | the server's code or its sentence alone is enough |
| `Revisions.IdSource.Fresh` | packages/core/src/pricing/respec.ts:136-153 | the search takes the first number not in use from the next on, or from 1 once the next is past 999 |
| `Revisions.NumberedExactly` | packages/core/src/pricing/respec.ts:137-145 | an id has a number if and only if it is `s` and digits that spell a safe integer |
| `Revisions.FreeIsLeast` | packages/core/src/pricing/respec.ts:146-152 | every number the search passed over was in use |
| `ScenarioIds.ExpansionCountsUp` | packages/core/src/pricing/respec.ts:136-153 | an expansion numbers on from the highest, one by one |
| `ScenarioIds.HighestIs` | packages/core/src/pricing/respec.ts:141-147 | which is the greatest number an id of the revision has |
| `ScenarioIds.ExpansionInRangeExactly` | packages/core/src/pricing/respec.ts:127-153 | an expansion's ids are within `s999` if and only if they fit behind the highest, or that is past the end already |
| `ScenarioIds.AnswerInRangeExactly` | packages/core/src/pricing/respec.ts:222-246 | and so are the new ids of an answer |
| `ScenarioIds.PastTheLastId` | packages/core/src/pricing/respec.ts:127-153 | expanding a revision at `s998` by two gives `s999` and `s1000` |
| `ScenarioIds.ComesPastTheLast` | packages/core/src/pricing/respec.ts:127-153 | a run of expansions and trims from a draft of one scenario gives `s1000` |
| `Revisions.Expand` | packages/core/src/pricing/respec.ts:185-214 | the loop keeps the revision's own scenarios and adds the chosen ones under new ids |
| `Revisions.Answer` | packages/core/src/pricing/respec.ts:222-255 | the loop keeps each kept key's id and origin and numbers the rest |
| `Revisions.NewOfIsNew` | packages/core/src/pricing/respec.ts:185-214 | what an expansion adds is new by key and by id, within the cap |
| `Revisions.AnsweredIsKeptOrNew` | packages/core/src/pricing/respec.ts:222-255 | an answer keeps an id exactly for what it keeps by key, and repeats neither |
| `RevisionContents.AnswerTakesAll` | packages/core/src/pricing/respec.ts:222-246 | an answer has the first scenario of each key of what was revised, in its order, up to forty, as written, a kept key with the id and origin of the last one before |
| `RevisionContents.AnswerKeepsKeys` | packages/core/src/pricing/respec.ts:222-246 | of no more than forty keys it has every one |
| `RevisionContents.ExpansionTakesAll` | packages/core/src/pricing/respec.ts:185-200 | an expansion appends the first scenario of each key the revision has not, in order, as written, while there is room |
| `RevisionContents.TrimLeavesTheRest` | packages/core/src/pricing/respec.ts:258-267 | a trim leaves exactly what it does not name, in order |
| `Revisions.TrimUndoesExpansion` | packages/core/src/pricing/respec.ts:258-267 | trimming what an expansion added gives the revision back |
| `Revisions.ChangeKeepsUnique` | packages/core/src/pricing/respec.ts:130-153 | no change repeats an id, nor a key unless the revision did |
| `Revisions.EveryRevisionHasUniqueIds` | apps/api/src/sizing/tools/draft-spec.ts:236-246 | whatever a model drafts or answers, no revision of any run repeats an id |
| `Revisions.IdsFollowKeys` | packages/core/src/pricing/respec.ts:216-255 | between a revision and its next, the id of a scenario alone under its key names what the key does, both ways |
| `Revisions.IdsFollowKeysExactly` | packages/core/src/pricing/respec.ts:216-267 | over every change ids mean what keys mean if and only if the revision repeats no key |
| `Revisions.SameKeyTwice` | packages/shared/src/spec.ts:82-87 | a draft of two scenarios under one key, the first trimmed: one key, two ids |
| `Revisions.IdsComeBack` | packages/core/src/pricing/respec.ts:130-135 | over a trim and an expansion an id returns on the scenario added |
| `SpecDiff.StableGrouping` | apps/web/src/RubricScenarios.tsx:103-152 | within a kind the view is everything of that kind in its own order; an unknown kind is not shown |
| `SpecDiff.EverythingIs` | apps/web/src/RubricScenarios.tsx:108-151 | what there is to show, field by field: the revision's own with their marks, then what the diff adds, then what it took out |
| `SpecDiff.ViewIsInKindOrder` | apps/web/src/RubricScenarios.tsx:99-107 | the view runs through the kinds in the registry's order |
| `SpecDiff.NothingLostOrRepeated` | apps/web/src/RubricScenarios.tsx:103-152 | every entry of a known kind is shown as often as it is there |
| `SpecDiff.CompleteExactly` | apps/web/src/RubricScenarios.tsx:103-152 | the view is a rearrangement of everything if and only if every kind is known |
| `SpecDiff.ScoredAreShown` | apps/web/src/RubricScenarios.tsx:108-124 | the scored entries read back as exactly the shown revision, kind by kind, whatever the diff |
| `SpecDiff.StandingIdsAreNext` | apps/web/src/ProposalSpec.tsx:414-424 | entries not taken out have the next revision's ids if and only if none of those is hidden by an unknown kind |
| `SpecDiff.NoneShownTwice` | apps/web/src/ProposalSpec.tsx:414-424 | no id of the two revisions together is shown twice |
| `SpecDiff.AddedMarkFollowsKey` | apps/web/src/ProposalSpec.tsx:408-424 | matched by id, an entry is marked added exactly when the shown revision has not its kind and title, whatever keys it repeats |
| `SpecDiff.MarksFollowKeysExactly` | apps/web/src/ProposalSpec.tsx:408-424 | entries are marked removed exactly when the next revision has not their key, over every change, if and only if no scenario of a known kind shares its key |
| `SpecDiff.TwinIsMarkedRemoved` | apps/web/src/ProposalSpec.tsx:408-424 | a draft of two scenarios under one key, the first trimmed: it is marked removed though its key is in the next revision |
| `SpecDiff.NeighboursAreMerged` | apps/web/src/ProposalSpec.tsx:414-424 | the merged view of any two neighbours of any run from any draft determines both |
| `SpecDiff.ChainLeadsToLast` | apps/web/src/ProposalSpec.tsx:414-424 | the diffs along any chain, applied in turn, give the last revision's ids |
| `SpecDiff.ChainComposes` | apps/web/src/ProposalSpec.tsx:414-424 | composed along any chain, the diffs are the one diff between its ends |
| `SpecDiff.SinceSizedMarks` | apps/web/src/ProposalSpec.tsx:399-407 | since sizing, added is exactly what the sized revision had not by key, removed what the current one has not |
| `SpecDiff.OnlyInIs` | packages/core/src/pricing/step.ts:178-187 | the step lists the weighed scenarios whose key the other revision has not, in order, each with its own fields |
| `SpecDiff.SinceSizedDeterminesBoth` | packages/core/src/pricing/step.ts:178-187 | the view since sizing determines both revisions by key |
| `SpecDiff.MarkedIdsAreUnique` | apps/web/src/RubricScenarios.tsx:576-585 | since sizing, no id with its mark is shown twice |
| `SpecDiff.IdsRepeatExactly` | apps/web/src/RubricScenarios.tsx:576-585 | an id is shown twice if and only if a shown scenario has the id of a sized one whose key is gone |
| `SpecDiff.IdReturnsSinceSized` | apps/web/src/RubricScenarios.tsx:576-585 | a trim and an expansion since sizing lead there |
| `RubricPoints.CountChecks` | packages/core/src/pricing/rubric.ts:454-463 | the loop counts the checks |
| `RubricPoints.ChecksAreUnderThen` | packages/core/src/pricing/rubric.ts:453-463 | which are exactly the steps under a `Then` no `Given` or `When` has followed |
| `RubricPoints.OwnTestIsNotCovered` | packages/core/src/pricing/weight.ts:86-95 | only a covered scenario has no test of its own |
| `RubricPoints.ScenarioFactors` | packages/core/src/pricing/rubric.ts:502-541 | the counting loop over a map gives the weight, unweighed and question factors |
| `RubricPoints.FactorsSpelled` | packages/core/src/pricing/rubric.ts:502-541 | each weight's factor is its scenarios' number times its points, the unpriced count at the middle weight, open questions one each |
| `RubricPoints.TestsSpelled` | packages/core/src/pricing/rubric.ts:772-793 | a test for each scenario that is not covered, and their outcomes past the first |
| `RubricPoints.LinesSpelled` | apps/web/src/RubricScenarios.tsx:192-226 | a scenario's two or three lines and what each says |
| `RubricPoints.LinesAreCharged` | packages/core/src/pricing/rubric.ts:745-790 | every scenario's lines together are the rubric's charge and the points of weights it has no factor for |
| `RubricPoints.PointsAreConserved` | apps/web/src/RubricScenarios.tsx:192-226 | for any diff and any table, the scored entries' lines come to the charge, plus dropped weights, less hidden kinds |
| `RubricPoints.LinesAreTheChargeExactly` | apps/web/src/RubricScenarios.tsx:192-226 | of known kinds and with points not negative, line by line is the charge if and only if no scenario has a weight the table prices and the registry has not |
| `RubricPoints.LinesAreTheCharge` | packages/core/src/pricing/weight.ts:131-142 | with a stored table of the registry's own weights it always is |
| `RubricPoints.ReadExactly` | packages/shared/src/pricing.ts:258-295 | a table is read unless a registry weight's points are out of bounds, with those weights alone and 0, 1, 2 and 4 for what it lacks |
| `RubricPoints.ReceivedIsShown` | packages/shared/src/spec.ts:29-53 | of what the response schemas let through, everything is on view |
| `RubricPoints.ReceivedLinesAreTheCharge` | packages/shared/src/pricing.ts:277-295 | of a spec they let through, the lines on show with the table as read come to the charge with the table as stored, whatever more that has |
| `RubricPoints.OneListEach` | apps/web/src/RubricScenarios.tsx:155-182 | each scored entry is in one list of the scenario dimension, and in none exactly when its weight was dropped |
| `RubricPoints.ListInOrder` | apps/web/src/RubricScenarios.tsx:165-190 | a factor's list is what it keeps of the view, in its order |
| `RubricPoints.WeightListMatches` | apps/web/src/RubricScenarios.tsx:174-178 | a weight's list has as many entries as its factor counts, whatever the diff |
| `RubricPoints.UnweighedListMatches` | apps/web/src/RubricScenarios.tsx:179-182 | and so has the unweighed list |
| `RubricPoints.TestListMatchesCoveredDiffs` | apps/web/src/RubricScenarios.tsx:183-184 | the test-cases list matches its factor if and only if all the diff adds or takes out is covered |
| `RubricPoints.ExtraListMatchesExactly` | apps/web/src/RubricScenarios.tsx:185-188 | the entries listed check as many further outcomes as the factor counts, and never fewer, if and only if no scenario of a known kind with a test that the diff adds checks a second outcome |
| `RubricPoints.GainedTestIsListed` | apps/web/src/RubricScenarios.tsx:183-184 | a next revision that gained one light scenario: the list and the factor differ |
| `RubricPoints.GainedCheckIsListed` | apps/web/src/RubricScenarios.tsx:185-188 | a next revision that gained one light scenario of two outcomes: the list has a check, the factor none |
| `IssueDates.WordsBoundDays` | apps/web/src/IssueSpec.tsx:86-92 | value times unit is within one unit of the days, toward zero, and only today is zero |
| `IssueDates.UnitIsLongest` | apps/web/src/IssueSpec.tsx:86-92 | the unit is the longest of day, week, month and year that fits in the days |
| `IssueDates.WordsAreAntisymmetric` | apps/web/src/IssueSpec.tsx:86-92 | seen from the other side the distance is the opposite |
| `IssueDates.WordsKeepOrder` | apps/web/src/IssueSpec.tsx:86-92 | rounding never reverses two distances, across units too |
| `IssueDates.OverdueMeansNegative` | apps/web/src/IssueSpec.tsx:77-142 | the warning and the sign of the words agree |
| `IssueDates.OverdueMeansBefore` | apps/web/src/IssueSpec.tsx:134-142 | at every today from 2000 on, overdue is before today on the calendar, for every date |
| `IssueDates.OverdueMeansBeforeExactly` | apps/web/src/IssueSpec.tsx:134-142 | at any today outside the years 0 to 99, the warning agrees with the calendar if and only if the date is outside the years `Date` shifts, or today is before the year 0 or after the day the date is taken for |
| `IssueDates.WordsAreTrueExactly` | apps/web/src/IssueSpec.tsx:77-93 | the words are those of the true distance if and only if the date is outside those years |
| `IssueDates.FartherReadsFarther` | apps/web/src/IssueSpec.tsx:77-93 | of two dates counted in order the later never reads as nearer, on either side of today |
| `IssueDates.FartherReadsFartherExactly` | apps/web/src/IssueSpec.tsx:77-93 | two dates read in their order at every today if and only if the earlier is not taken for a day past the later |
| `IssueDates.DatesAreAntisymmetric` | apps/web/src/IssueSpec.tsx:77-93 | two dates, each seen from the other, read as opposite distances |
| `IssueDates.BareDateReadsBack` | apps/web/src/IssueSpec.tsx:45-55 | a bare date names its own calendar day if and only if its year is 100 or later; before that, the day nineteen hundred years on |
| `IssueDates.BareWordsAreTrueExactly` | apps/web/src/IssueSpec.tsx:50-93 | what a bare date reads as, at any today outside the years 0 to 99, is its own distance if and only if its year is 100 or later |
| `IssueDates.NinetyNineIsMisread` | apps/web/src/IssueSpec.tsx:50-93 | a bare date of December 99 reads, at the start of 2026, as 26 years ago and not 1927 |
| `Regex.RunThen` | apps/extension/src/task.ts:65-69 | a greedy run before what cannot start inside it is taken whole or fails: backtracking never shortens it |
| `Regex.ThenAssociates` | apps/extension/src/task.ts:65-69 | concatenation of patterns is associative in every match and its order |
| `CloneTarget.LazyStops` | apps/extension/src/task.ts:66 | the lazy name stops at the first length that leaves an allowed ending |
| `CloneTarget.RunThenSeparator` | apps/extension/src/task.ts:66-69 | a greedy run and the separator it cannot hold match in one way at most, the direct parse's |
| `CloneTarget.AuthorityMatches` | apps/extension/src/task.ts:66 | host and optional port match exactly what the direct parse takes, on every string |
| `CloneTarget.HttpsMatchIsParse` | apps/extension/src/task.ts:65-68 | on every string the https pattern, with all its backtracking, captures what the direct parse finds |
| `CloneTarget.SshMatchIsParse` | apps/extension/src/task.ts:69 | and so does the ssh pattern |
| `CloneTarget.ClonedExactly` | apps/extension/src/task.ts:63-82 | exactly which texts are cloned, into one folder that is never `.` or `..` and holds no slash |
| `CloneTarget.ClonedIsBuilt` | apps/extension/src/task.ts:63-82 | whatever is cloned is, trimmed, an https or ssh URL built of host, owner, folder and ending, whose folder keeps no ending of its own |
| `CloneTarget.AuthorityExactly` | apps/extension/src/task.ts:66 | a host of letters, digits, dots and hyphens, and a port of one to five digits |
| `CloneTarget.SegmentsAreWords` | apps/extension/src/task.ts:66-69 | an owner and a name of letters, digits, underscores, dots and hyphens |
| `CloneTarget.HttpsCloneReadsBack` | apps/extension/src/task.ts:63-82 | a rebuilt https URL, with or without port, clones into its own name if and only if no `.git` of the name's own is taken for the ending |
| `CloneTarget.SshCloneReadsBack` | apps/extension/src/task.ts:63-82 | the same of a rebuilt ssh URL |
| `CloneTarget.NameLosesItsOwnGit` | apps/extension/src/task.ts:63-82 | a repository named `notes.git`, cloned from its page's address, goes into `notes` |

## Left out

- AWS calls: each read or write is one atomic step that answers or raises; the several calls of one address read, retries of the client library, pagination and TXT quoting are not modelled.
- EventTime: leap seconds (a second of 60) are not valid event times here.
- RunChangeHub: listeners that subscribe or stop others while a publish is calling them.
- EventStream: what the runtime does inside one send, back-pressure and the browser's retry are not modelled; a stream's abort is one step.
- ConnectState: HMAC is any function from secret and text to bytes, and comparison in constant time is comparison.
- ConnectState.MintedThenVerified: times are whole milliseconds a double holds exactly; other numbers are read as the real they spell, without a double's rounding.
- Base64Url: what Node does with characters after a `=` and how many U+FFFD it makes of malformed bytes; strings are of scalar values, so lone surrogates are left out.
- Redirect: the app URL is an origin of a scheme such as https and has no query of its own.
- UrlPath: runtimes older than the standard's rule that `^` is escaped in a path.
- Workspaces: each hook's check and its store are one step; pictures, the organization limit, roles, removing members, deleting accounts and hooks without a store are not modelled.
- Handles: lowercasing is ASCII's, which decides every accepted handle since other text is refused; which of the two problems a refusal names is not modelled.
- CreateOrganization: the form's own state, and a success that comes back without a workspace.
- Revisions: the key is any text of kind and title, the program's fold of case and white space among them; open questions, assumptions and the refusals of a request are not modelled.
- SpecDiff: the text saying when changes were made, and which revision is chosen.
- RubricPoints: labels and evidence texts, the code dimension and the size bands; points are integers, as stored settings are.
- IssueDates: values that are not bare dates are a parameter from text to a local calendar day; days when a time zone skips midnight, and the words themselves.
- CloneTarget: the clone itself and the messages of a refusal.
- The user interface, wiring, configuration and stores around these parts.
