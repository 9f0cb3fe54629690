# NovaVeil verification model

A Dafny model of the in-memory protocols of the NovaVeil LLM gateway, with proofs of what they are meant
to guarantee. `dafny verify dfyconfig.toml` checks the whole project.

## What is modelled

| file | part of the gateway | main results |
|---|---|---|
| `AliasText`, `AliasRequest`, `AliasStream` | identity aliasing of outgoing prompts and restoring of the streamed answer | for every channel and every way the text is cut into events, what the client receives is the whole-text replacement; aliasing followed by restoring is the identity |
| `StreamVerdicts`, `StreamForward` | verdicts on stream events, forwarding of a committed stream and the round bound of the retry loop | what a round is, event by event, read off the payloads; no bad end is ever delivered or counted as a success; when a recorded success ends in exactly one terminal event |
| `GroupCycles` | three-colour search of the import check | no cycle is reported if and only if there is none; every reported path is closed |
| `GroupGraph`, `GroupDepth` | group create, update, rename and delete | acyclic, no dangling reference and a name index that agrees with the table, over every sequence of edits; what the guard accepts, exactly; which edits keep chains short |
| `ProxyPool`, `ProxyPicks`, `ProxyVotes`, `FailureWindow` | proxy accounts: leases, session stickiness, bans, votes, eviction, failure window, cooldown | lease accounting over every run; which account a pick gives; a session gets its account back; which vote makes a quorum; memory and stored row agree in either order of the two saves, before and after a restart |
| `RateWindow` | sliding-window limits and concurrency slots | admitted if and only if there is room in the window; the announced wait is exact |
| `BodyBudget` | byte budget of request bodies | the budget in use is the sum of the open charges; a request restores what it took on every path |
| `EvalQueue`, `EvalScheduler` | evaluation queue table and the schedulers that share it | unique positions and unique active pairs; finished for good; no row evaluated by two workers |
| `Compaction` | nightly compaction of the conversation archive | at every crash point the day can be read back, and exactly when |
| `ToolAlias`, `ToolArguments` | renaming of client tools, adapting of official calls | fresh distinct names, restoring gives back every declared name, a second pass changes nothing |
| `IdlePool` | idle connections of one transport | every connection has one owner under every interleaving |
| `TextTruncate`, `Utf8`, `JsonTruncate` | byte limits and redaction of logged text | the longest valid prefix; only string contents change; redaction survives truncation |
| `ApiKeyIndex` | published snapshots of the API keys | every snapshot ever published is consistent and equals the table |

Where the source updates state in place the model is a class whose methods are proved against functions or
relations on values (`State()`, `Next`, `Step`, `Outcome`); the theorems about whole runs are lemmas about
those. Each critical section or transaction is one atomic step. Hashes are arbitrary functions of the right
shape, clocks are numbers passed in, random names are assumed unused, database rows are maps and sealing is
the identity. Failing input or output is a parameter.

## Where the code falls short of its promise

Each of these is stated exactly, with a condition a caller could check or a concrete state.

- **Diamonds are refused.** The comment at `internal/op/group.go:402-404` says the visited map saves expanding
  a diamond twice; the code reports the second visit as a cycle. A target is accepted exactly when the
  references below it form a tree of bounded depth that avoids the edited group (`AcceptedIffTree`);
  `DiamondIsRejected` names an acyclic table one of whose groups cannot be referred to.
- **Evicting a leased account loses its leases.** `trimLocked` does not look at active requests. Read off the
  pool before the trim: every trim keeps the accounting if and only if each leased account has as many others
  strictly in front of it as must go (`EveryTrimKeepsIff`), and some trim does if and only if there are as many
  unleased accounts with no leased one in front of them (`SomeTrimKeepsIff`). For a pick, which creates an
  account where none is open to the session, the condition is that there are as many such unleased accounts as the
  pool then exceeds its limit by (`PickKeepsIff`); `FullPoolLosesLease` is a full pool, each account leased once,
  from which every pick of a new session takes a lease.
- **A quorum need not be about one account.** The comment at `internal/relay/opencode_proxy_pool.go:555-556` asks
  for two sessions that report an account; votes do not name one. `QuorumIff` says over every run which vote makes
  the quorum, `QuorumIsOnAccountIff` when that is the comment's rule, and in `QuorumAcrossAccounts` an account cools
  down that one session was refused on.
- **No depth holds for the whole table.** The guard measures what is below the edited group. An update keeps all
  chains within a length exactly when the chains that end at its group and those below its new targets fit
  together (`UpdateKeepsDepthIff`); creating and deleting always keep one group and the limit below it.
  `ChainsGrow` builds a chain of any length by accepted updates.
- **A restart forgets consecutive failures.** Everything else about an account is the same over every later history
  (`RestartIsTransparent`), but its rank among the candidates may change (`RestartForgetsFailures`).
- **A large Retry-After wraps.** The 64-bit product of seconds and nanoseconds overflows from 9223372037
  seconds on; `RetryAfterHonoured` is the exact condition, and `RetryAfterOverflows` a value whose cooldown
  lies in the past.
- **Success without an end.** A round is recorded as a success when a finish reason was seen even if the
  client left before the closing frames were written. `SuccessEndsOnce` is the exact condition,
  `SuccessWithoutEnd` an instance.
- **A late stop can start a task twice.** `requeueInflight` returns rows by id without asking whether another
  instance has taken them over after the lease. `StopIsSafeIff` is the exact condition, `LateStopRunsTwice` a
  run in which two instances evaluate one row, and `LateStopIsCall` that its stop is a call of `Scheduler`. It needs a completing write that failed and a stop after the lease.
- **Compaction trusts any complete archive.** An archive that exists beforehand is checked for completeness
  only. `SafeIff` says when a day is safe: its plain file is empty, or a complete archive holds the same content.
- **Two requests can wait for each other.** A request that waits for budget keeps what it has read. `LetBothWait`
  brings two requests there whenever twice what one may need exceeds the limit by two bytes, `BothWaitNeedsRoom` shows
  it happens then only; with the built-in limits it can happen (`DefaultsLetBothWait`).
- **A cut string can get longer** than it was, exactly when fewer bytes are cut than the marker has
  (`ShrunkTextSize`); `CutGetsLonger` is an instance.
- **Updating an API key rewinds its time of last use** to the value in the snapshot, although the comment at
  `internal/op/apikey.go:159-161` wants it preserved. `ApiKeys.Update` states when the row keeps its own,
  `UpdateRewindsUse` runs into it.
- **Snapshots need distinct plaintexts** (`ConsistentIffDistinct`); the writers keep them distinct.

## Model

| member | source | states |
|---|---|---|
| AliasText.NoSelfOverlap | internal/relay/opencode_alias.go:25-30 | No proper suffix of one alias is a prefix of an alias, so occurrences never overlap |
| AliasText.RestoreSplit | internal/relay/opencode_alias.go:463 | Replacement distributes over every cut that halves no alias |
| AliasText.KeepCutsClean | internal/relay/opencode_alias.go:453-462 | The held-back suffix never cuts an alias in half, whatever arrives later |
| AliasText.KeepIsNeeded | internal/relay/opencode_alias.go:456-460 | Holding back less would be wrong: some continuation completes an alias that starts at the kept suffix |
| AliasText.FeedKeepsMeaning | internal/relay/opencode_alias.go:447-480 | One chunk emits and holds back text with the same meaning for every continuation |
| AliasText.StreamingEqualsWhole | internal/relay/opencode_alias.go:447-518 | For every way of cutting a text, the emitted texts plus the final flush are the replacement of the whole |
| AliasText.ChunkingIsInvisible | internal/relay/opencode_alias.go:447-518 | Two ways of cutting one text give the reader the same text |
| AliasText.RestoreUndoesAliasing | internal/relay/opencode_alias.go:50-128 | Replacing matched names by fresh aliases and restoring gives the text back |
| AliasRequest.IdentityAlias | internal/relay/opencode_alias.go:115-128 | Returns the first unblocked alias among 128 probes and fails exactly when all of them are blocked |
| AliasRequest.LeafContained | internal/relay/opencode_alias.go:130-143 | An alias inside any string value of the body is found by the collision test |
| AliasRequest.ContainedIff | internal/relay/opencode_alias.go:130-143 | The collision test finds an alias exactly in string values and member names, at any depth |
| AliasRequest.FreeIff | internal/relay/opencode_alias.go:115-128 | A probe is free exactly when it is no alias yet and occurs neither in the raw body nor in its strings |
| AliasRequest.PiecesCoverText | internal/relay/opencode_alias.go:53-79 | The text between and in the bounded matches is the whole field |
| AliasRequest.PiecesStandAlone | internal/relay/opencode_alias.go:53-79 | Exactly the matches next to no ASCII letter, digit or underscore are replaced, in order |
| AliasRequest.AliasedCons | internal/relay/opencode_alias.go:71-79 | What leaves is, match by match, the text in between and the alias of the name |
| AliasRequest.AliasOf | internal/relay/opencode_alias.go:60-70 | A name keeps its alias, a new one gets a fresh one; the two maps stay one-to-one |
| AliasRequest.AliasField | internal/relay/opencode_alias.go:50-79 | Every match bounded by non-word characters is replaced, everything else is kept; refused exactly at a new name of this field whose probes are all taken after the names in front of it |
| AliasRequest.LeafIsFresh | internal/relay/opencode_alias.go:115-143 | Aliases absent from the body occur in none of its prompt fields |
| AliasRequest.RestoreGivesFieldBack | internal/relay/opencode_alias.go:39-128 | Restoring a rewritten prompt field gives the original field |
| AliasRequest.ApplyAlias | internal/relay/opencode_alias.go:39-102 | All prompt fields are rewritten with one table that restores each of them; refused exactly when registering the matched names in order meets a new name with no free probe, and then which name and with which maps |
| AliasRequest.RefusedOrServed | internal/relay/opencode_alias.go:50-79 | Names that can all be registered in order never get stuck, so refusal and success exclude each other |
| AliasStream.StreamMeansReplacement | internal/relay/opencode_alias.go:403-517 | On every channel, for every sequence of events, sent text plus held-back text is the replacement of every segment |
| AliasStream.OpenStreamIsWhole | internal/relay/opencode_alias.go:434-481 | As long as no event ends the stream, fails, or closes a prefix of the channel, all its deltas are one text |
| AliasStream.ClosedHoldsNothing | internal/relay/opencode_alias.go:432-493 | After an event that does, nothing is held back on the channel and all that was due has been sent |
| AliasStream.ClosingRestarts | internal/relay/opencode_alias.go:432-493 | After it the channel starts a new text |
| AliasStream.LastDeltaJoins | internal/relay/opencode_alias.go:447-481 | A single delta in a closing event belongs to the text in front of it |
| AliasStream.ClosingSplits | internal/relay/opencode_alias.go:447-481 | Every further delta in a closing event is a text of its own |
| AliasStream.RunTracks | internal/relay/opencode_alias.go:428-480 | After each event the channel means the same as the segments read, whatever follows |
| AliasStream.EventIsDone | internal/relay/opencode_alias.go:447-493 | Deltas and flush of one event together are one step of the channel automaton on every channel |
| AliasStream.FinalFlush | internal/relay/opencode_alias.go:346-350 | The flush at the end leaves nothing pending and completes every channel |
| AliasStream.RenumberedTail | internal/relay/opencode_alias.go:519-540 | Numbering newly queued events continues the sequence numbers already sent |
| AliasStream.NumbersFollow | internal/relay/opencode_alias.go:519-540 | Each event with data has the number after its predecessor, the first the given one, and empty events have none |
| AliasStream.NumberedTwice | internal/relay/opencode_alias.go:519-540 | Numbering is idempotent |
| AliasStream.IdentityStream.constructor | internal/relay/opencode_alias.go:311-332 | A new stream has nothing pending and nothing sent |
| AliasStream.IdentityStream.CheckSequence | internal/relay/opencode_alias.go:413-426 | Numbering starts at the first event's number; a malformed one is refused |
| AliasStream.IdentityStream.Fields | internal/relay/opencode_alias.go:447-481 | Each text field of an event is restored as the automaton of its channel says: on a channel that stays open, with what is held back, it means the same as the raw text whatever follows; on one that closes nothing is held back. Refused at the first field of an open channel that must be held back beyond the channel or template limit |
| AliasStream.IdentityStream.Flush | internal/relay/opencode_alias.go:496-517 | Exactly the channels that the event does not leave open send their remainder and are cleared |
| AliasStream.IdentityStream.Transform | internal/relay/opencode_alias.go:403-494 | One upstream event becomes its step on all channels and leaves nothing held back on those it closes; for each refusal, exactly which event is refused |
| AliasStream.IdentityStream.Renumber | internal/relay/opencode_alias.go:519-540 | Consecutive numbers, and failure exactly when they pass the 64-bit maximum |
| AliasStream.IdentityStream.Next | internal/relay/opencode_alias.go:334-364 | When the end is reported without a failure every channel has received the replacement of everything read, as one text if no event closed it, numbered consecutively |
| StreamVerdicts.AnalyzeChoices | internal/relay/protocol.go:363-429 | The verdict of a chat chunk says what some well-formed choice says |
| StreamVerdicts.VerdictMeans | internal/relay/protocol.go:183-429 | For each protocol, the verdict on an event says exactly what its payload says: error frame, bad end, proper end, stated finish, answer, thoughts, content |
| StreamVerdicts.ClosingFramesEndOnce | internal/relay/protocol.go:626-678 | Synthesized frames are normal and end in the only terminal event among them |
| StreamVerdicts.ClosingFramesAreProper | internal/relay/protocol.go:626-678 | On their payloads: they state a finish where the protocol has one, and only the last is an end |
| StreamForward.AcceptsIffGoodStart | internal/relay/upstream.go:1148-1210 | A window is accepted exactly when the first event that is garbled, tainted, an end or content is content or a proper end, the latter only after output or a stated finish |
| StreamForward.CarryingKeeps | internal/relay/upstream.go:1148-1210 | A window keeps every event with data, in order, and no other |
| StreamForward.RoundIs | internal/relay/handler.go:988-1280 | What is written, whether closing frames follow and whether the round is a success, by the payload of the first event behind which reading does not go on |
| StreamForward.RoundIsHonest | internal/relay/handler.go:1037-1280 | No event with a bad end is ever written; an error frame only as the last event of a failed round; a success has a proper end or a stated finish |
| StreamForward.BadEventFails | internal/relay/handler.go:1086-1280 | A stream that meets a bad end or an error frame before a proper end is no success, and nothing behind it is written |
| StreamForward.ReadWindow | internal/relay/upstream.go:1148-1210 | A window is accepted exactly when the first decisive event is a good start within the budget; it ends there and tells whether that is the terminal event; a stream without one ends in the read error or an early end |
| StreamForward.WrittenIsNormal | internal/relay/handler.go:1037-1155 | No event that is written has an abnormal finish, and none but the last is terminal |
| StreamForward.OnlyNormalPrefixIsWritten | internal/relay/handler.go:988-1240 | The client gets a prefix of the upstream events without abnormal ones; closing frames only after a success |
| StreamForward.SuccessEndsOnce | internal/relay/handler.go:1171-1280 | A recorded success ends for the client in exactly one terminal event if and only if the upstream sent one or the client has room for all events and closing frames |
| StreamForward.SuccessWithoutEnd | internal/relay/handler.go:1194-1280 | A stream whose success is recorded although the client saw no terminal event |
| StreamForward.SoundStreamSucceeds | internal/relay/handler.go:988-1280 | A sound stream that fits budgets and client up to its terminal event is delivered exactly so far, without closing frames, and recorded as a success unless reading or aggregating fails |
| StreamForward.Forward | internal/relay/handler.go:988-1155 | The loop with its flags refines the reference reading of window and stream, and its round is honest in that sense |
| StreamForward.Finish | internal/relay/handler.go:1171-1280 | Final classification and closing frames are those of the reference reading |
| StreamForward.TryRound | internal/relay/handler.go:183-1280 | A round ends the request exactly when its window is accepted, and then delivers the reference reading of window and rest, an honest round |
| StreamForward.RetryRounds | internal/relay/handler.go:183-216 | The retry loop ends within the largest limit read; the client gets the output of the first round whose window is accepted and of no other |
| GroupCycles.PathDescends | internal/op/backup.go:939-987 | Along any path through a finishing order the position falls |
| GroupCycles.FinishedIsAcyclic | internal/op/backup.go:939-987 | A graph all of whose nodes are finished has no cycle |
| GroupCycles.CycleSearch.Report | internal/op/backup.go:952-960 | The reported stretch of the stack is a closed path |
| GroupCycles.CycleSearch.Visit | internal/op/backup.go:949-974 | Without a report, everything reachable from the name is finished; the stack is restored |
| GroupCycles.CycleSearch.Detect | internal/op/backup.go:939-987 | The list of cycles is empty if and only if the reference map is acyclic; every entry is a closed path |
| GroupCycles.BuildRefs | internal/op/backup.go:889-937 | The map holds exactly the references of existing groups and those the import adds |
| GroupCycles.EdgesAre | internal/op/backup.go:889-937 | Which references these are, on the fields of groups and members |
| GroupGraph.WalkChainRegion | internal/op/group.go:405-426 | An accepted walk has found a set that no reference leaves and that avoids the edited group |
| GroupGraph.AcceptedTargetCannotReachSelf | internal/op/group.go:388-426 | From an accepted target the edited group cannot be reached |
| GroupGraph.AcceptedChainIsShort | internal/op/group.go:405-426 | No path below an accepted target is longer than the depth limit |
| GroupGraph.AcceptedPathsAreUnique | internal/op/group.go:405-426 | Below an accepted target every group is reached along one path only |
| GroupGraph.AcceptedIffTree | internal/op/group.go:388-426 | The guard accepts a target exactly when the references below it form a short tree that avoids the edited group |
| GroupGraph.OwnNameIsRefused | internal/op/group.go:388-408 | A group cannot name itself, neither a stored one nor one that is being created |
| GroupGraph.DiamondIsRejected | internal/op/group.go:402-426 | A consistent, acyclic table one of whose groups cannot be referred to |
| GroupGraph.AcyclicAfterEdit | internal/op/group.go:128-273 | Rewriting one group keeps the graph acyclic if it cannot be reached from its new targets |
| GroupGraph.CreateKeepsInv | internal/op/group.go:85-125 | Creating with accepted targets keeps acyclicity, references and index together |
| GroupGraph.UpdateKeepsInv | internal/op/group.go:128-273 | Rewriting and renaming keeps them; acyclicity after a rename needs that nothing refers to the old name |
| GroupGraph.DeleteKeepsInv | internal/op/group.go:307-321 | Deleting a group nobody refers to keeps them |
| GroupGraph.GroupStore.WalkRefChain | internal/op/group.go:405-426 | The loop over the shared visited map is the recursive walk the theorems speak of |
| GroupGraph.GroupStore.ValidateReferences | internal/op/group.go:388-400 | Accepts exactly the items all of whose targets pass the guard |
| GroupGraph.GroupStore.FirstReferrer | internal/op/group.go:429-441 | Finds a referrer if and only if there is one |
| GroupGraph.GroupStore.Create | internal/op/group.go:85-125 | Succeeds exactly when the group is acceptable; then table and index gain exactly this group, else they are unchanged and the reason given holds |
| GroupGraph.GroupStore.CheckUpdate | internal/op/group.go:128-202 | Refuses exactly what is not acceptable; every refusal names a reason that holds |
| GroupGraph.UpdatedMembers | internal/op/group.go:179-199 | The members afterwards are the undeleted ones in their old order and number, and behind them the new ones |
| GroupGraph.GroupStore.UpdateGroup | internal/op/group.go:128-273 | The same for an update: exactly the deleted members go, the others stay in order in front of the new ones, the name is the new one, and no other group changes |
| GroupGraph.GroupStore.Delete | internal/op/group.go:307-321 | Succeeds exactly for an existing group nobody else refers to, and removes it alone |
| GroupDepth.UpdateKeepsDepthIff | internal/op/group.go:128-273 | An accepted update keeps all chains of the table within a length exactly when every chain that ends at the updated group and every chain below its new targets fit together |
| GroupDepth.CreateKeepsDepth | internal/op/group.go:85-125 | Creating never makes a chain longer than a group and the depth limit below it |
| GroupDepth.DeleteKeepsDepth | internal/op/group.go:307-321 | Deleting makes no chain longer |
| GroupDepth.ChainsGrow | internal/op/group.go:388-426 | For every length, accepted updates of a table without references that build a chain of that length |
| GroupGraph.ValidateDuplicates | internal/op/group.go:345-365 | Accepts exactly lists without a repeated channel model or reference |
| GroupGraph.ValidateMembers | internal/op/group.go:325-340 | Accepts exactly lists all of whose members have a valid target |
| GroupGraph.MemberMeans | internal/op/group.go:325-340 | A valid member is a reference with a name or an existing channel model |
| GroupGraph.DistinctMeans | internal/op/group.go:345-365 | Members are distinct when no channel model and no referenced name occurs twice and each has one of the two |
| ProxyPool.BetterIsRanking | internal/relay/opencode_proxy_pool.go:278-287 | The candidate order is a strict ranking |
| ProxyPool.OneSessionPerAccount | internal/relay/opencode_proxy_pool.go:313-338 | All open leases of an account that carry a session carry the same one |
| ProxyPool.AvailableIffNotHeldByOthers | internal/relay/opencode_proxy_pool.go:327-338 | An account is open to a session exactly when no other session holds a lease on it |
| ProxyPool.EvictionTakesNoLease | internal/relay/opencode_proxy_pool.go:351-373 | An eviction keeps the accounting if and only if the account carries no lease |
| ProxyPool.TrimKeepsInv | internal/relay/opencode_proxy_pool.go:351-373 | A trim keeps the accounting if and only if no evicted account carried a lease |
| ProxyPool.EveryTrimKeepsIff | internal/relay/opencode_proxy_pool.go:351-373 | Every trim, however ties fall, keeps the accounting if and only if each leased account has as many accounts strictly in front of it as must go |
| ProxyPool.SomeTrimKeepsIff | internal/relay/opencode_proxy_pool.go:351-389 | Some trim keeps the accounting if and only if enough unleased accounts have no leased one in front of them; otherwise every trim loses a lease |
| ProxyPool.PickKeepsIff | internal/relay/opencode_proxy_pool.go:178-251 | A pick that needs a new account can keep the accounting if and only if enough unleased accounts have no leased one in front of them, as many as the pool then exceeds its limit by; otherwise every way it can go loses a lease |
| ProxyPool.FullPoolLosesLease | internal/relay/opencode_proxy_pool.go:178-251 | A full pool of 30000 accounts with one lease each: every pick of a further session loses one of them |
| ProxyPool.StepKeepsInv | internal/relay/opencode_proxy_pool.go:178-553 | Pick, release, ban, vote and marks keep active counts and session tables equal to the open leases |
| ProxyPool.RunKeepsInv | internal/relay/opencode_proxy_pool.go:178-553 | The same over every run from a consistent pool that evicts no leased account; no account has more than five leases |
| ProxyPool.LoadedPoolIsConsistent | internal/relay/opencode_proxy_pool.go:135-161 | A pool loaded from rows is consistent with no open leases |
| ProxyPool.BindingSurvives | internal/relay/opencode_proxy_pool.go:208-251 | A binding outlives every step that does not concern it within its time to live |
| ProxyPool.SessionReturnsToItsAccount | internal/relay/opencode_proxy_pool.go:208-251 | A session that picks again within 24 hours gets its account while that is usable, unbanned and not held by another session |
| ProxyPicks.PickIs | internal/relay/opencode_proxy_pool.go:208-251 | Read off leases and account fields: a session keeps the account it was bound to less than a day ago unless that is ruled out, else gets the best ranked of those that are not, and a new one if and only if all are |
| ProxyPicks.PickFixedIs | internal/relay/opencode_proxy_pool.go:254-276 | A keyed channel gets its account unless that is full, cooling, expired, banned for the session or held by another |
| ProxyPicks.CoolingAccountRests | internal/relay/opencode_proxy_pool.go:310-325 | Over every run: from a cooldown mark on the account is handed out to nobody before its end, unless it succeeds, is marked anew or is evicted |
| ProxyPicks.OldSuccessExpires | internal/relay/opencode_proxy_pool.go:310-325 | Over every run: an account whose last success is more than a week old is handed out no more |
| ProxyPicks.SuccessFreesAccount | internal/relay/opencode_proxy_pool.go:424-446 | After a success only open requests and bans rule an account out for a week, and it has no consecutive failures |
| ProxyPicks.BannedAccountIsAvoided | internal/relay/opencode_proxy_pool.go:514-530 | Over every run: for a day a session does not get an account that refused it |
| ProxyPicks.OldStoresAreForgotten | internal/relay/opencode_proxy_pool.go:290-308 | After a pick or a vote no binding, ban or vote of a day ago is left |
| ProxyPicks.TrimKeepsHighest | internal/relay/opencode_proxy_pool.go:351-389 | A trim brings the pool to its limit, keeps the given account, and every account that goes is verified and used no more than any that stays |
| ProxyPool.AccountPool.BestCandidate | internal/relay/opencode_proxy_pool.go:208-251 | Finds a candidate that no other candidate beats, or reports that there is none |
| ProxyPool.AccountPool.Trim | internal/relay/opencode_proxy_pool.go:351-389 | Evicts the lowest ranked accounts one by one, never the one to keep, until the limit holds |
| ProxyPool.AccountPool.PickAccount | internal/relay/opencode_proxy_pool.go:178-251 | Keeps the sticky account, else moves to a best candidate, else creates one; takes a slot and binds |
| ProxyPool.AccountPool.PickFixedAccount | internal/relay/opencode_proxy_pool.go:254-276 | A keyed channel gets its one account or nothing |
| ProxyPool.AccountPool.ReleaseAccount | internal/relay/opencode_proxy_pool.go:396-415 | Returns one slot and forgets a session with its last lease |
| ProxyPool.AccountPool.BanAccount | internal/relay/opencode_proxy_pool.go:514-530 | Bans the account for the session and drops the binding to it |
| ProxyPool.AccountPool.RecordRateLimited | internal/relay/opencode_proxy_pool.go:542-553 | Counts a session's vote and reports the quorum; what a quorum means over a run is QuorumIff |
| ProxyPool.AccountPool.MarkRateLimited | internal/relay/opencode_proxy_pool.go:561-576 | A refusal without a session cools the account down at once, one with a session exactly at the quorum |
| ProxyVotes.QuorumIff | internal/relay/opencode_proxy_pool.go:542-576 | In every run a vote makes the quorum if and only if another session voted within 24 hours and since the last quorum |
| ProxyVotes.QuorumIsOnAccountIff | internal/relay/opencode_proxy_pool.go:555-576 | A vote decides as if votes named their account exactly when some other session's vote was about the same account, if there is any such vote at all |
| ProxyVotes.QuorumAcrossAccounts | internal/relay/opencode_proxy_pool.go:555-576 | A run in which an account cools down that only one session was refused on |
| ProxyPool.AccountPool.MarkAccount | internal/relay/opencode_proxy_pool.go:424-505 | Applies a success, cooldown or failure to an account, creating it first if it is unknown |
| FailureWindow.MidnightCooldown | internal/relay/opencode_proxy_pool.go:580-594 | Without a header the cooldown ends exactly at the next UTC midnight |
| FailureWindow.RetryAfterHonoured | internal/relay/opencode_proxy_pool.go:580-594 | The header is honoured, capped at a day, exactly when its nanoseconds modulo the 64-bit range still come to a day or were less than one; always up to 9223372036 seconds |
| FailureWindow.RetryAfterOverflows | internal/relay/opencode_proxy_pool.go:580-594 | A header for which the cooldown lies in the past |
| FailureWindow.EventKeepsAgreement | internal/relay/opencode_proxy_pool.go:466-505 | After each success, failure or cooldown memory and row agree, in either order of the two saves, and the count is below six |
| FailureWindow.HistoryKeepsAgreement | internal/relay/opencode_proxy_pool.go:601-632 | The same over every history with a monotone clock |
| FailureWindow.SixthFailureRests | internal/relay/opencode_proxy_pool.go:478-495 | Of the failures within a day of the first, five only count and the sixth puts the account to rest until the next UTC midnight |
| FailureWindow.RestingIgnoresFailures | internal/relay/opencode_proxy_pool.go:478-487 | Failures of a resting account change nothing |
| FailureWindow.RestartIsTransparent | internal/relay/opencode_proxy_pool.go:135-161 | Over every history after a restart an account rebuilt from its row has the last success, verification, cooldown and window of the one that was lost, and agrees with its row; the consecutive failures start at zero |
| ProxyPool.RestartForgetsFailures | internal/relay/opencode_proxy_pool.go:278-287 | Two accounts of which one is ranked first before a restart and neither afterwards |
| FailureWindow.HistoryIsCounted | internal/op/opencode_proxy.go:57-96 | Over every history the success counters add up and count each success once, as probed or real, and each new day once |
| FailureWindow.AccountTable.SaveRealFailure | internal/op/opencode_proxy.go:113-156 | The stored window opens, counts, resets at six and rests while the account cools |
| FailureWindow.AccountTable.SaveSuccess | internal/op/opencode_proxy.go:57-96 | A success ends the cooldown, leaves the window alone, and counts once as real or probed and on at most one new day |
| FailureWindow.AccountTable.SaveCooldown | internal/op/opencode_proxy.go:165-190 | A cooldown clears the window |
| FailureWindow.AccountTable.Prune | internal/op/opencode_proxy.go:287-325 | Keeps as many rows as asked and deletes none that ranks before one that stays |
| FailureWindow.KeptBeforeIff | internal/op/opencode_proxy.go:287-325 | The order in which rows are kept, on their fields |
| RateWindow.WaitIsExact | internal/relay/channellimit.go:165-186 | Without other admissions an attempt is admitted from the announced time on and refused before it |
| RateWindow.RetryAfterIsLeast | internal/keylimit/keylimit.go:103-133 | The announced whole seconds are the least that lead to admission |
| RateWindow.AdmittedIffRoom | internal/relay/channellimit.go:165-186 | An attempt is admitted if and only if fewer than the limit were admitted in the window before it; a refused one is told the first moment at which this is so |
| RateWindow.RunAdmitsIffRoom | internal/relay/channellimit.go:165-186 | The same in every run of attempts |
| RateWindow.AttemptKeepsSpread | internal/relay/channellimit.go:165-186 | Any rpm consecutive admissions span at least a window |
| RateWindow.NeverMoreThanLimit | internal/relay/channellimit.go:165-186 | In no run does an interval of one window length hold more admissions than the largest limit used |
| RateWindow.RpmLimiter.TryPermit | internal/relay/channellimit.go:165-186 | Admits exactly when the log of this key has room, else tells the first moment at which it has; the in-place window tracks the log, and other keys are untouched |
| RateWindow.RpmLimiter.AcquirePermit | internal/keylimit/keylimit.go:103-133 | Admits with 0 exactly when there is room, else announces whole seconds; a limit that is not positive forgets the window |
| RateWindow.SlotState.Acquire | internal/keylimit/keylimit.go:87-97 | A slot is granted exactly when fewer than the limit are open |
| RateWindow.SlotState.AcquireWaiting | internal/relay/channellimit.go:87-129 | The waiting form takes a free slot at once and never exceeds the limit, while others come and go |
| RateWindow.Slot.Release | internal/relay/channellimit.go:52-61 | Returning a slot frees it once, however often it is called |
| RateWindow.ConcurrencyTable.Acquire | internal/keylimit/keylimit.go:75-97 | Slots are counted per id on one unshared state, other ids are untouched; a limit that is not positive grants without counting |
| RateWindow.ConcurrencyTable.Return | internal/keylimit/keylimit.go:46-52 | Giving a slot back keeps the table consistent, also after its state was dropped |
| RateWindow.ConcurrencyTable.Cleanup | internal/relay/channellimit.go:192-204 | Deleting an id leaves its open slots valid on the old state |
| BodyBudget.Budget.Acquire | internal/relay/bodylimit.go:51-86 | Charges what was asked or nothing; at once when there is room; refused for size exactly when it exceeds the whole budget |
| BodyBudget.Budget.TryAcquire | internal/relay/bodylimit.go:90-101 | Charges at once or refuses without a change |
| BodyBudget.Budget.Release | internal/relay/bodylimit.go:104-116 | Gives back exactly the amount; the clamp at zero never acts |
| BodyBudget.StreamIs | internal/relay/bodylimit.go:283-309 | A stream is what the reads return up to and with the first that reports an end |
| BodyBudget.Budget.ReadBudget | internal/relay/bodylimit.go:267-309 | Unless canceled, succeeds exactly for streams that do not fail, are not too long and come in pieces that fit; then the whole stream is returned with exactly its bytes charged; every failure leaves the charge as it was |
| BodyBudget.Budget.DecodeBudget | internal/relay/bodylimit.go:189-257 | For each encoding exactly when it succeeds unless canceled; a decoded body carries its own charge of its size, an identity body none |
| BodyBudget.Budget.ReadRequest | internal/relay/bodylimit.go:143-179 | Exactly when a request is served unless canceled; it then holds exactly the bytes of its decoded body, otherwise nothing |
| BodyBudget.Lease.Release | internal/relay/bodylimit.go:177-178 | The release acts once |
| BodyBudget.HandleRequest | internal/relay/bodylimit.go:140-179 | For every encoding and every failure the request's charge is what it was before, while other requests run in between |
| BodyBudget.SumUpdate | internal/relay/bodylimit.go:38-43 | Changing one charge changes the sum by the difference |
| BodyBudget.LetBothWait | internal/relay/bodylimit.go:66-82 | Two requests reach, by charging what they read, a state in which both must wait for more, whenever twice what one may need exceeds the limit by two bytes |
| BodyBudget.BothWaitNeedsRoom | internal/relay/bodylimit.go:66-82 | With smaller needs no consistent budget has both waiting |
| BodyBudget.DefaultsLetBothWait | internal/relay/bodylimit.go:21-29 | The built-in limits allow it |
| EvalQueue.FinishedForGood | internal/op/model_eval_queue.go:253-299 | Over every history a done or stopped task never becomes queued or running again |
| EvalQueue.SwapOvertakesOne | internal/op/model_eval_queue.go:303-361 | Moving up passes exactly the neighbour and changes the order of no other pair |
| EvalQueue.AppendStep | internal/op/model_eval_queue.go:105-187 | Adding a pair that is not active keeps positions and active pairs unique |
| EvalQueue.WantedAre | internal/op/model_eval_queue.go:149-187 | Exactly the pairs without a queued or running row are added, each once, in the order given |
| EvalQueue.PairsAre | internal/op/model_eval_queue.go:113-142 | The pairs of the given channel models, each once, in the order given |
| EvalQueue.SetStatusMeans | internal/op/model_eval_queue.go:253-299 | A change of status touches nothing else of a row and no other row |
| EvalQueue.Queue.Enqueue | internal/op/model_eval_queue.go:149-187 | New rows stand behind all others and hold, in the given order and once each, exactly the pairs that were not active |
| EvalQueue.Queue.EnqueueModels | internal/op/model_eval_queue.go:105-187 | One missing or disabled channel model refuses the whole request; otherwise the pairs of all are enqueued, each once |
| EvalQueue.Queue.PopNext | internal/op/model_eval_queue.go:211-251 | Takes as many queued rows as allowed from the front, leaving none in front of one it takes, and starts them |
| EvalQueue.Queue.ResetRunning | internal/op/model_eval_queue.go:260-265 | Exactly the running rows whose lease is over return to the queue |
| EvalQueue.Queue.ResetRunningOnStart | internal/op/model_eval_queue.go:274-284 | A single instance takes back all running rows, several only expired ones |
| EvalQueue.Queue.RequeueRunning | internal/op/model_eval_queue.go:289-299 | Of the given rows only those still running return |
| EvalQueue.Queue.MoveUp | internal/op/model_eval_queue.go:303-361 | Swaps with the queued row in front, or says why not |
| EvalQueue.Queue.Stop | internal/op/model_eval_queue.go:364-387 | Stops a queued row and no other |
| EvalQueue.Queue.Clear | internal/op/model_eval_queue.go:390-398 | Deletes exactly the queued rows and counts them |
| EvalQueue.Queue.MarkDone | internal/op/model_eval_queue.go:401-411 | Completes a row |
| EvalScheduler.StepKeepsInv | internal/eval/scheduler.go:88-367 | Every step of every instance keeps: a claimed row runs since its claim, within its lease, and is claimed once |
| EvalScheduler.OneWorkerPerTask | internal/eval/scheduler.go:213-367 | In every run with recorded completions and prompt stops no row has two workers and no instance more than four |
| EvalScheduler.ClaimedIsNotExpired | internal/eval/scheduler.go:19-29 | A worker's row is never among the expired ones |
| EvalScheduler.StopIsSafeIff | internal/eval/scheduler.go:148-169 | A stop disturbs no other worker exactly when none has taken over a row it still holds inflight |
| EvalScheduler.LateStopRunsTwice | internal/eval/scheduler.go:148-169 | A run in which two instances evaluate one row |
| EvalScheduler.LateStopIsCall | internal/eval/scheduler.go:109-169 | The stop in that run is a call on what the stopping instance knows |
| EvalScheduler.Scheduler.Start | internal/eval/scheduler.go:88-107 | Starts once and recovers the rows of an earlier process; a running scheduler is left alone, and one whose recovery fails stays stopped |
| EvalScheduler.Scheduler.Dispatch | internal/eval/scheduler.go:213-238 | Afterwards four workers run or no row waits; from the front of the queue, never beyond four, and nothing after a cancel or if the query fails |
| EvalScheduler.Scheduler.Reap | internal/eval/scheduler.go:202-211 | Exactly the rows whose lease is over return, and no row of a worker |
| EvalScheduler.Scheduler.EndWorker | internal/eval/scheduler.go:240-273 | A recorded end leaves the inflight set, an abandoned one stays in it |
| EvalScheduler.Scheduler.FinishStop | internal/eval/scheduler.go:109-169 | Exactly the abandoned rows that still run return, then nothing is inflight; if that fails the scheduler stays started |
| EvalScheduler.OwnClaimsStayApart | internal/eval/scheduler.go:131-144 | Whatever other instances claim, an instance holds a row inflight once as long as it takes none its workers are on |
| EvalScheduler.CallIsStep | internal/eval/scheduler.go:88-273 | Every call of a scheduler is a step of the shared protocol or changes nothing, also where other instances have taken over its rows, so the results about runs hold of schedulers |
| Compaction.StepKeepsProtected | internal/op/conversation.go:499-597 | Every operation on the disk keeps the day protected |
| Compaction.NothingIsLost | internal/op/conversation.go:484-616 | Any number of compactions and crashes, some of which undo directory operations, leave the day readable at every moment |
| Compaction.SafeIff | internal/op/conversation.go:510-520 | A day with a plain file survives every run exactly when the file is empty or a complete earlier archive holds the same content |
| Compaction.DamagedArchiveIsHarmless | internal/op/conversation.go:510-520 | A missing or damaged earlier archive never costs the day |
| Compaction.DayFiles.VerifyArchive | internal/op/conversation.go:601-616 | Accepts only complete streams (section 2.3.1 of RFC 1952) |
| Compaction.DayFiles.CompressAtomic | internal/op/conversation.go:534-597 | Publishes the compressed source as a whole or leaves source and archive alone |
| Compaction.DayFiles.Compact | internal/op/conversation.go:499-530 | All its intermediate disk states form a run of safe operations; without failures only the archive is left, with the source's content |
| ToolAlias.FreeName | internal/relay/opencode_tool_alias.go:160-166 | The collision loop ends with the first free candidate, which is a wire name |
| ToolAlias.InertIff | internal/relay/opencode_tool_alias.go:102-107 | Exactly functions with a name that is not of the generated shape are renamed |
| ToolAlias.RenameAll | internal/relay/opencode_tool_alias.go:102-115 | Each renamed tool gets its own wire name, named after the digest of its own, free of official and declared names, and an alias back |
| ToolAlias.AliasesAreApart | internal/relay/opencode_tool_alias.go:158-173 | Generated names clash with no official or declared name and stand for declared names |
| ToolAlias.BuildReverse | internal/relay/opencode_tool_alias.go:179-184 | Of several aliases of a name the least is used |
| ToolAlias.ReverseIsUnique | internal/relay/opencode_tool_alias.go:179-184 | The result does not depend on the order in which the map is visited |
| ToolAlias.RewriteSlots | internal/relay/opencode_tool_alias.go:223-237 | Exactly the string slots with a mapped name change |
| ToolAlias.RestoreUndoesRewrite | internal/relay/opencode_tool_alias.go:175-269 | Rewriting and restoring gives a name back exactly when it is not itself a generated name |
| ToolAlias.Classify | internal/relay/opencode_tool_alias.go:70-101 | Exact copies of official tools are set apart; the others keep their order, preferred ones first |
| ToolAlias.ChosenInOrder | internal/relay/opencode_tool_alias.go:83-101 | Preferred and other clients keep their number and order |
| ToolAlias.SettledIff | internal/relay/opencode_tool_alias.go:83-118 | A list is left alone exactly when it holds each official tool once and no other function under a name of its own |
| ToolAlias.OutcomeIsSettled | internal/relay/opencode_tool_alias.go:102-130 | What is sent holds every official tool once and nothing that a second pass would rename |
| ToolAlias.EnsureOfficial | internal/relay/opencode_tool_alias.go:64-130 | A settled list is left alone; any other becomes a settled one: the official tools, then the clients in order under their generated names, with all references rewritten |
| ToolAlias.EnsureTwice | internal/relay/opencode_tool_alias.go:64-130 | A second pass leaves the body unchanged |
| ToolAlias.DeclaredNamesComeBack | internal/relay/opencode_tool_alias.go:175-269 | Every renamed tool has an alias that is no official or declared name, every reference to it leaves under such an alias, and every reference to a declared name survives the way out and back |
| ToolArguments.PruningIsExact | internal/relay/opencode_tool_alias.go:434-487 | Pruning makes a value conform to its schema at every depth and changes nothing that conforms |
| ToolArguments.PrunedIs | internal/relay/opencode_tool_alias.go:434-487 | What pruning makes of a value, by type, properties and items of the schema |
| ToolArguments.ClientNameIs | internal/relay/opencode_tool_alias.go:494-504 | An argument goes under its own name or the first of its aliases that is declared, and is dropped only if none is |
| ToolArguments.ClientNameIsStable | internal/relay/opencode_tool_alias.go:489-499 | A mapped argument name is declared and maps to itself |
| ToolArguments.Adapt | internal/relay/opencode_tool_alias.go:403-416 | Under each client name stands the pruned value of the last argument that maps to it |
| ToolArguments.AdaptedConforms | internal/relay/opencode_tool_alias.go:391-432 | Only declared names reach the client, each with a conforming value |
| ToolArguments.AdaptingTwice | internal/relay/opencode_tool_alias.go:391-432 | Arguments in the client's shape pass unchanged |
| ToolArguments.AdaptOfficial | internal/relay/opencode_tool_alias.go:391-432 | Which calls are adapted, and the prompt filled in for a page fetch |
| ToolArguments.PromptIs | internal/relay/opencode_tool_alias.go:415-424 | A required prompt of a page fetch is there, and nothing else is added or changed |
| IdlePool.RemoveSpec | internal/client/bun.go:307-317 | Removing takes exactly one connection out and keeps the lists proper |
| IdlePool.WithoutKeepsOrder | internal/client/bun.go:307-317 | Removing keeps the order of the other connections |
| IdlePool.Transport.TakeIdle | internal/client/bun.go:264-274 | Hands out the connection pooled last |
| IdlePool.Transport.PutIdle | internal/client/bun.go:278-304 | Pools a connection exactly when its host's list is below the cap |
| IdlePool.Transport.RemoveIdle | internal/client/bun.go:307-317 | Reports true exactly when the connection was still pooled, and removes it |
| IdlePool.Transport.CloseIdle | internal/client/bun.go:345-355 | Takes all lists at once |
| IdlePool.StepKeepsInv | internal/client/bun.go:262-400 | Every step of a request, watcher, timer or close-all keeps one owner per connection |
| IdlePool.ConnectionsAreExclusive | internal/client/bun.go:262-400 | Over every run a connection is in one slot or has one user; lists respect the cap; no watcher reads what a request uses |
| IdlePool.NotClosedWhileUsed | internal/client/bun.go:334-400 | Only the request or the end of its context closes a connection in use |
| TextTruncate.DecodeLast | internal/op/error_log.go:580-583 | Decides whether a whole character ends the text |
| TextTruncate.StartIsBoundary | internal/op/error_log.go:574-587 | In valid text every byte that is no tail starts a character (section 4 of RFC 3629) |
| TextTruncate.BoundaryIff | internal/op/error_log.go:574-587 | A prefix of valid text is valid exactly when a whole character ends it |
| TextTruncate.LongestPrefix | internal/op/error_log.go:574-587 | Truncation of valid text is its longest valid prefix within the limit |
| Utf8.RuneIff | internal/op/error_log.go:580-583 | What counts as a whole character is exactly the encoding of a code point (section 3 of RFC 3629) |
| TextTruncate.Truncate | internal/op/error_log.go:574-587 | The loop computes that prefix |
| JsonTruncate.ShrinkKeepsShape | internal/op/error_log.go:512-535 | Shrinking changes nothing but the contents of strings |
| JsonTruncate.ShrinkKeepsWellFormed | internal/op/error_log.go:512-535 | Shrinking keeps a document well-formed, because strings are cut between characters |
| JsonTruncate.ShrunkTextSize | internal/op/error_log.go:517-518 | The bound of a cut string, and exactly when it becomes longer than it was |
| JsonTruncate.CutIs | internal/op/error_log.go:517-518 | A cut string is its longest valid beginning within the limit and the marker |
| JsonTruncate.ShrunkAt | internal/op/error_log.go:512-535 | At every place below the top: strings are cut, other leaves stay, members and keys stay |
| JsonTruncate.CutGetsLonger | internal/op/error_log.go:517-518 | A text of 17 bytes that becomes 30 under the limit of 16 |
| JsonTruncate.ShrinkStrings | internal/op/error_log.go:512-535 | The loops over arrays and objects compute the shrunk tree |
| JsonTruncate.Redact | internal/op/error_log.go:445-460 | The loops compute the redacted tree |
| JsonTruncate.RedactionCleans | internal/op/error_log.go:445-460 | No value under a sensitive name survives at any depth, and clean trees are unchanged |
| JsonTruncate.RedactedAt | internal/op/error_log.go:445-460 | Outside the values under sensitive names every leaf, key and member stays as it is |
| JsonTruncate.SecretIsMarked | internal/op/error_log.go:445-460 | In the place of every outermost value under a sensitive name stands the mark |
| JsonTruncate.RedactionKeepsWellFormed | internal/op/error_log.go:445-460 | Redaction keeps a document well-formed |
| JsonTruncate.ShrinkKeepsClean | internal/op/error_log.go:385-392 | Truncating after redaction keeps the tree clean |
| JsonTruncate.TruncateBody | internal/op/error_log.go:469-489 | Never more than the limit; short bodies are kept; the widest string limit that fits is used |
| JsonTruncate.WidestIsBest | internal/op/error_log.go:469-489 | The string limit used is the widest of 512, 256 and so on under which the document fits |
| JsonTruncate.LoggedDocument | internal/op/error_log.go:462-508 | For a codec that keeps well-formed documents, what is logged is the original document up to the contents of strings unless no limit is enough |
| ApiKeyIndex.ConsistentIffDistinct | internal/op/apikey.go:268-302 | A snapshot read from the rows is consistent exactly when plaintexts are distinct |
| ApiKeyIndex.AuthenticatesIff | internal/op/apikey.go:229-243 | A plaintext is accepted exactly when a row has it, and as that row |
| ApiKeyIndex.ApiKeys.Create | internal/op/apikey.go:98-136 | Refuses taken and short values, otherwise adds one row and publishes a snapshot equal to the table |
| ApiKeyIndex.ApiKeys.Update | internal/op/apikey.go:138-184 | The exact outcome of every update; replaces one row, keeps both maps inverse, and when the time of last use survives |
| ApiKeyIndex.UpdateRewindsUse | internal/op/apikey.go:159-163 | A key that is created, used and edited loses the time of its use |
| ApiKeyIndex.ApiKeys.Delete | internal/op/apikey.go:245-266 | Removes the row; its plaintext is refused from the next snapshot on |
| ApiKeyIndex.ApiKeys.Refresh | internal/op/apikey.go:268-302 | Publishes a snapshot equal to the rows |
| ApiKeyIndex.ApiKeys.GetByApiKey | internal/op/apikey.go:229-243 | Both lookups use one snapshot and the second never misses |

## Left out

- HTTP, TLS and proxy dialing, the sidecar process, request handlers and headers: input and output.
- SQL text, migrations, encryption at rest, transactions that fail half-way: a transaction is one step, and a failing one changes nothing.
- The choice of JSON paths that hold prompts, answers and tool names: the fields, slots and channels are inputs of the model.
- The regular expression for names: any left-to-right scan with disjoint matches is allowed.
- The internals of Go's string replacer: the model replaces leftmost occurrences, which is what it does for words that do not overlap.
- AliasStream.IdentityStream.Transform: leaves out the snapshot fields of Responses streams, which carry whole texts and are restored by one replacement each.
- The order in which pending channels are flushed and cycles are looked for: any order is allowed, the source sorts.
- StreamForward.TryRound: leaves out the ways a round ends the request without an accepted window: errors that are not retried, a stop, a cancelled client.
- StreamForward.RetryRounds: leaves out the exits of the loop other than success and its bound: the deadline, a stop, errors that are not retried, a cancelled client.
- Masking, model echo and usage rewriting around the forwarded events, and the conditions of the retry loop other than its bound.
- GroupReplaceItemsByName, item priorities, sorting and trimming of names.
- The effect of an import on the stored groups: the cycle check is modelled on the reference map it builds.
- GroupGraph.AcceptedChainIsShort: bounds the chain below the edited group at the time of the edit; GroupDepth says when that bounds the chains of the whole table.
- Weighted choice between channels, circuit breakers, sticky routing and the loop that waits for a rate permit.
- RateWindow.SlotState.AcquireWaiting: counts wake-ups instead of the one second the source waits.
- Limits read before a lock is taken: an attempt is one atomic step at one time.
- Deferred stops of idle timers beyond one: a timer that could not be stopped may fire later, even after the connection was pooled again, and then closes the pooled connection early.
- ProxyPool.AccountPool.MarkRateLimited: votes and marks in one go; in the source another request may take the lock in between. In runs the two are separate steps.
- FailureWindow.AccountTable.SaveSuccess: leaves out the source column and the update stamp; the calendar day is an input.
- EvalScheduler.OneWorkerPerTask: assumes that completing writes succeed and that a stop happens within the lease of the rows it returns; StopIsSafeIff says what holds without that.
- EvalQueue.Queue.MoveUp: is one atomic step; two moves that interleave between reading and writing are not modelled.
- EvalQueue.Queue.EnqueueModels: names and types of channels are not kept in the rows; a pair stands for both.
- Publishing of the queue to subscribers and the result history of evaluations.
- Compaction.NothingIsLost: assumes that directory operations reach the disk in program order, since the directory itself is never synced.
- The writer of the plain archive file, its queue and its byte counters, retention and clearing.
- ToolAlias.EnsureOfficial: assumes that the names in the built-in templates are distinct.
- Raw texts that are equal as JSON but differ in spelling: tool definitions are compared as values, as the source compares them after decoding.
- Path characters other than dots and backslashes in argument names.
- JsonTruncate.ShrinkStrings: works on values, so the sharing of maps and arrays in the decoded tree is not captured; the same holds for JsonTruncate.Redact.
- The text patterns that redact what is no JSON, and the spelling rules for sensitive names: the test is a parameter.
- ApiKeyIndex.ApiKeys.Create: takes the value after trimming; the mutex is modelled by one operation at a time.
- Configuration, settings validation, statistics, login and the web front end: easy or unrelated.
