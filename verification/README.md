# Verified model of the ToH proxy

ToH carries TCP and UDP traffic of an application through a SOCKS5 or HTTP proxy on the
client, over a stream of messages, to a server that checks an access key and dials the
target. This project models the parts of it that keep state, in the form the program has
them, and proves what they promise, or exactly when they keep a promise they can break.

Objects whose methods update their fields are classes (`AclServer.Server`,
`DnsCache.Cache`, `Socks5Handshake.Conn`, `StreamConn.Conn`, `Pushback.Wrapper`,
`PipeEngine.Engine`), each method specified by a function on values or by its whole new
state. What several goroutines do at the same time is a system of steps, and the theorems
are about every interleaving of them.

| file | what it models |
|---|---|
| `Quota.dfy` | the four-way decision whether a key has bytes left, in wrapping uint64 arithmetic |
| `Rules.dfy` | allow and deny rules: trimming, splitting, matching |
| `Limits.dfy` | how the texts of a limit become enforced numbers, also when one does not parse |
| `SliceDelete.dfy` | deleting from a slice while ranging over its old header |
| `AclModel.dfy` | the access control list as a value: live table, stored records, file |
| `AclDecisions.dfy` | who is let in, on the numbers, the rules and the keys themselves |
| `AclServer.dfy` | the same list as heap objects that share usage counters |
| `AclPersist.dfy`, `AclPersistRuns.dfy`, `AclPersistSolo.dfy` | the list with any number of concurrent callers and the background saver, statement by statement, with the disk |
| `AclRestart.dfy`, `AclPersistRestart.dfy` | which limit calls a restart changes the effect of, for sequential and for interleaved histories |
| `AclPersistUsage.dfy` | usage accounting when the two halves of a call are interleaved with anything |
| `AclEdit.dfy` | editing the lists of a key from the command line |
| `Stats.dfy` | charging traffic events to keys |
| `DnsTables.dfy`, `DnsCache.dfy` | the DNS cache and its reverse index |
| `Socks5Codec.dfy`, `Socks5Handshake.dfy`, `Socks5Udp.dfy` | SOCKS version 5 (RFC 1928) |
| `StreamConn.dfy`, `Pushback.dfy` | byte streams over messages, and over bytes already read |
| `Relay.dfy`, `Pipe.dfy`, `PipeEngine.dfy`, `Tunnel.dfy`, `TunnelEnd.dfy`, `TunnelAnswer.dfy` | copy loops, a pipe of two of them, its events, a whole session of four, how it ends, and which sessions deliver everything |
| `Common.dfy`, `Tools.dfy` | words, bytes, small conversions |

`dafny verify dfyconfig.toml` checks everything.

## Main results

- Access list: whatever the interleaving of the statements of the operations and the
  saver, no slice is indexed out of bounds, and at rest after a successful save the file is
  the current state (`NoLostUpdate`); this takes each statement as atomic, although the
  program touches its map without the lock, which Go may stop as a fatal error, and takes
  the encoder to read the list's header once. A restart brings back the very live table
  exactly when the limit calls made for every key were careful in a sense that only looks
  at these calls (`RestartExact`, `RestartExactAtRest`, `SurvivesExact`).
- Decisions: who passes and with what verdict, for every key, quota and list
  (`KnownKeys`, `InDecision`, `OutDecision`, `CheckExact`).
- Usage: in every interleaving what a key has used is, modulo 2^64, what its calls reported
  (`AclPersistUsage.UsageConserved`).
- Quotas: a total limit is a bound exactly for consistent triples of limits
  (`TotalQuotaExact`), and a denial lasts exactly when the summed counters are not compared
  or do not wrap (`DenialStableExact`, `DeniedStaysDenied`).
- DNS: the forward table answers with the latest response not yet evicted (`ForwardExact`);
  the reverse table holds exactly the names since the bucket was opened (`ReverseExact`,
  `ReverseLookupMeaning`).
- SOCKS5: a parser that is the exact inverse of the grammar (`ParseExact`) and a handshake
  over one buffer that, in every run, does what that parser says or gives up (`Handshake`).
- Relays: prefix safety, conservation and bounded runs for every interleaving of the loops
  (`EveryRun`, `EndToEnd`, `RunBounded`); which pipes lose bytes of one direction and how
  many (`UndisturbedOutcome`, `NothingAfterClose`); which sessions end (`SessionEnds`) and
  which are sure to deliver everything either way (`AnswerExact`, `PayloadExact`); and when
  a traffic event is exact (`EventExact`).

## Where the code and what is said about it differ

- `Limit` is documented to replace a key's limit (server/acl/acl.go:239). A blank text
  keeps the number in force, and a text that does not parse leaves the fields before it
  applied. `limit --reset` sends blank texts, so numbers stay in force until the server is
  restarted (`ResetNeedsRestart`; the exact conditions are `AcceptedFaithfulExact` for one call
  and `LastCallDecides` and `SurvivesExact` for histories).
- A save that fails has already reset the pending counter (`FailedSaveLosesUpdate`), and
  leaves the file empty if it fails in writing (`FileAfterSaves`); the
  next counted change brings the file up to date again (`SaverCatchesUp`).
- With duplicate keys the loop in `DelKey` may skip a record or panic (`DeleteExact`).
- An allow list that is empty but not nil denies everything until the list is reloaded,
  and nothing afterwards (`EmptyAllowListIsLost`).
- The handshake chooses method 0 whatever methods it is offered, where section 3 of
  RFC 1928 has the server pick one of them (`UnofferedMethodChosen`; the exact condition is
  `ChosenMethodExact`). It closes without the reply of section 6 on an unknown address type
  or a request cut short (`UnknownTypeUnanswered`, `UnansweredExact`).
- The reverse index can forget the name of a response that is still cached, because a
  bucket expires with the response that opened it (`BucketDiesFirst`). When a response is
  filed, its name is sure to stay as long as the response is cached exactly if the bucket
  expires no earlier, by at least as much as the clock can move while one eviction reads it
  entry by entry (`NameStaysExact`).
- The end of a message stream is recognised by a text that also occurs in other errors
  (`FailureTakenForEnd`).
- A pipe counts bytes that were not delivered if a connection claims them when a write
  fails (`EventExact`, `Inflated`), as the write of `spec.Conn` does (spec/spec.go:87-97).
  Neither call of `Pipe` passes a `spec.Conn`; what the configured dialer returns is not
  part of this model.
- An application can lose the whole answer although nothing fails: if it ends its own
  stream, as one that waits for the answer to what it has sent (`EndingFirstLosesAnswer`),
  or if the target ends its stream while the application still has something to send
  (`SendingOnLosesAnswer`), because the client closes the connection with the first of its
  two loops. In all other sessions with an answer it is sure to get all of it
  (`AnswerExact`). The client never ends its half of the message stream, so a session that
  the application ends stays open on the server until the target ends it (`SessionEnds`).
- A command that edits a list shows the new list also when the server refused it
  (`AclEdit.Update`).

## Model

| member | source | states |
|---|---|---|
| `Quota.TotalQuotaExact` | server/acl/acl.go:48-72 | for every triple of limits with a total, "granted implies In+Out below the total" holds if and only if the partial limits are consistent with the total |
| `Quota.TotalQuotaBound` | server/acl/acl.go:48-72 | with in+out limits within the total and no wrap of the counters, granted implies In+Out below the total in all four configurations, and neither subtraction underflows |
| `Quota.DenialStableExact` | server/acl/acl.go:48-72 | more traffic can turn a denied key into a granted one exactly when only a total limit is set, by wrap-around of the sum |
| `Quota.DenialStableWithoutWrap` | server/acl/acl.go:48-72 | without wrap of the sum a denial outlasts every increase of the counters |
| `Rules.SplitJoin` | server/acl/acl.go:173 | splitting at slashes loses nothing and leaves no slash in a part |
| `Rules.MatchesExact` | server/acl/acl.go:173-179 | a rule matches exactly when, trimmed, it is the address or address, slash, network, and the compared parts hold no slash |
| `Rules.FindMatch` | server/acl/acl.go:171-193 | the search loop over a list finds a match exactly when some rule matches |
| `Rules.TrimIdentity` | server/acl/acl.go:173 | trimming leaves a text alone exactly when neither end is a cut character |
| `Rules.TrimExact` | server/acl/acl.go:173 | trimming cuts a front and a back made of cut characters and leaves a middle with none at either end; any such middle is the result |
| `Rules.IsSpaceExact` | server/acl/acl.go:173 | the spaces cut from a rule are the 25 white space characters of Unicode and no others |
| `Rules.SomeMatchExact` | server/acl/acl.go:171-193 | some rule of a list matches exactly when one, trimmed, is the address without a slash or address, slash, network with none in either |
| `Limits.LastTextWins` | server/acl/acl.go:294-316 | over every history of calls, failing ones included, a byte limit is the parsed text of the last call that reached the field with a text, or the first value if none did |
| `Limits.LastListsWin` | server/acl/acl.go:317-318 | the lists are those of the last call that succeeded with a limit |
| `Limits.ApplySucceeds` | server/acl/acl.go:294-321 | a call is accepted exactly when every text it gives parses |
| `Limits.ReapplyExact` | server/acl/acl.go:294-321 | sending a limit again changes no byte limit exactly when its texts are the numbers in force |
| `SliceDelete.DeleteExact` | server/acl/acl.go:232-236 | for every list: the loop panics exactly when the last element is a hit and not the only one, and filters the list exactly when it does not panic and no two neighbours are hits |
| `SliceDelete.DeleteUnique` | server/acl/acl.go:232-236 | with at most one hit the loop filters the list and keeps its order |
| `SliceDelete.DeleteSameArray` | server/acl/acl.go:234 | the loop never changes the size of the backing array |
| `SliceDelete.FilterExact` | server/acl/acl.go:232-236 | filtering keeps exactly the other elements, and keeps distinct elements distinct |
| `AclModel.GrantedIsBelowTotal` | server/acl/acl.go:146-160 | a known key that is not the admin key and is granted has used less than its total limit |
| `AclDecisions.KnownKeys` | server/acl/acl.go:138-160 | the admin key passes everything; any other unknown key is refused by both checks; without an admin key no key, the empty one included, is privileged; unknown keys have used nothing |
| `AclDecisions.InDecision` | server/acl/acl.go:48-59 | the verdict on incoming bytes in numbers, for each configuration of limits: by the incoming limit alone if there is one, else by the total |
| `AclDecisions.OutDecision` | server/acl/acl.go:61-72 | the same for outgoing bytes, asked after the incoming ones |
| `AclDecisions.PartialLimitsHold` | server/acl/acl.go:48-72 | whatever the total, a key that passes is below each limit of its own; one that has reached it is refused with the direction named; without limits it passes |
| `AclDecisions.CheckExact` | server/acl/acl.go:162-196 | within quota, an allow list grants exactly what one of its rules says, a deny list without one refuses exactly that, and no list grants all; over quota the verdict is the quota's |
| `AclDecisions.AllowListKeepsOut` | server/acl/acl.go:171-181 | a pair no rule of the allow list says is not granted |
| `AclDecisions.CreatedKey` | server/acl/acl.go:208-225 | a new key may do everything, has used nothing and is stored last under its name; no other changes |
| `AclDecisions.RemovedKey` | server/acl/acl.go:227-237 | a deleted key is refused, its record is cut out where it stood, no other changes |
| `AclDecisions.ChangesArePending` | server/acl/acl.go:198-284 | every operation but a save leaves one more change pending, except traffic of an unknown key, which changes nothing |
| `AclDecisions.ResetFrees` | server/acl/acl.go:277-284 | a reset lets a key through exactly unless its one partial limit is all of its total |
| `AclModel.LoadLiveLookup` | server/acl/acl.go:122-132 | the loaded table has exactly the keys of the file, each with its own limit and usage |
| `AclModel.LoadAgrees` | server/acl/acl.go:122-132 | loading a file without duplicates gives a live table and a stored list with the same keys, each once |
| `AclModel.WithoutExact` | server/acl/acl.go:227-237 | removing a key removes it and nothing else, and keeps keys unique |
| `AclModel.OpKeepsAgreement` | server/acl/acl.go:198-284 | every operation keeps live table and stored list together, given fresh generated keys |
| `AclModel.RunKeepsAgreement` | server/acl/acl.go:198-284 | so does every sequence of operations |
| `AclModel.TwoRepresentations` | server/acl/acl.go:122-132 | from a loaded file on, the two representations never drift apart |
| `AclModel.LimitThenGetLimit` | server/acl/acl.go:239-268 | an accepted limit is what the next query returns, a fresh empty one for nil, and no other key changes |
| `AclModel.LimitsAfterRun` | server/acl/acl.go:239-268 | after any history of all operations, a present key is enforced as its own limit calls alone make it, and a query returns the last accepted one |
| `AclModel.AcceptedFaithfulExact` | server/acl/acl.go:239-256 | after an accepted call the file asks for what is enforced exactly when every blank field was unlimited before and no list is empty; removing the limit, exactly when nothing was in force |
| `AclModel.ReloadKeepsDecisions` | server/acl/acl.go:162-196 | in that case every decision and every usage query is the same after a restart |
| `AclModel.ResetNeedsRestart` | cmd/acl/limit.go:24-33 | a key denied by an old number stays denied after its limit was blanked, and is granted after a restart |
| `AclModel.EmptyAllowListIsLost` | server/api/api.go:12-13 | an empty allow list denies before a restart and is gone after it |
| `AclModel.UsageConserved` | server/acl/acl.go:198-206 | over every history a present key has used, modulo 2^64, what it was loaded with plus its events, or its events since the last reset; saving adds nothing |
| `AclServer.KeyCell.InBytesLimited` | server/acl/acl.go:48-59 | the method on the object decides as the specification predicate |
| `AclServer.KeyCell.OutBytesLimited` | server/acl/acl.go:61-72 | the same for outgoing bytes |
| `AclServer.KeyCell.Apply` | server/acl/acl.go:294-321 | the in-place assignments leave exactly the enforcement and the success flag of the specification, after a failing text too |
| `AclServer.RemoveRecords` | server/acl/acl.go:232-236 | for any list, the key in it any number of times: the loop over the array of pointers panics exactly on a late hit and otherwise leaves the kept records at its front |
| `AclServer.CutInPlace` | server/acl/acl.go:234 | one in-place removal shifts the tail of the backing array and leaves the stale slot |
| `AclServer.Server.CheckKey` | server/acl/acl.go:146-160 | decides as the value the objects stand for |
| `AclServer.Server.Check` | server/acl/acl.go:162-196 | decides as the value the objects stand for, with the two search loops |
| `AclServer.Server.GetUsage` | server/acl/acl.go:270-275 | returns the usage of the value, zero for an unknown key |
| `AclServer.Server.GetLimit` | server/acl/acl.go:258-268 | the search returns the limit of the first record of that key, an empty one for nil or none |
| `AclServer.Server.UpdateBytesUsage` | server/acl/acl.go:198-206 | changes the value by the bytes of one event and nothing else, although records may share the counter |
| `AclServer.Server.NewKey` | server/acl/acl.go:208-225 | adds one live key and one record at the end, given a fresh key |
| `AclServer.Server.DelKey` | server/acl/acl.go:227-237 | removes the key from both representations and keeps the order of the rest |
| `AclServer.Server.Limit` | server/acl/acl.go:239-256 | changes enforcement and stored limit as specified and reports failure exactly for a known key with a text that does not parse |
| `AclServer.Server.DelUsage` | server/acl/acl.go:277-284 | gives the key a new counter; its record keeps pointing to the old one |
| `AclServer.Server.Persist` | server/acl/acl.go:333-340 | makes every record share its key's counter, changes nothing else, and writes the file of the value |
| `AclServer.Server.PersistTick` | server/acl/acl.go:344-355 | clears the counter when something is pending and then leaves the file alone, empties it or writes the list, as far as the disk lets it; otherwise does nothing |
| `AclServer.NewACL` | server/acl/acl.go:74-136 | refuses short admin keys and else builds objects that stand for the loaded file |
| `AclPersist.RemovalExact` | server/acl/acl.go:232-236 | at every reachable state the deletion inside DelKey does not panic and removes the one pointer |
| `AclPersist.StepSafe` | server/acl/acl.go:333-340 | no statement of any operation or of the saver indexes outside a backing array, stale slice headers included |
| `AclPersist.TableKept` | server/acl/acl.go:208-256 | every statement keeps both representations together up to the key the lock holder is creating or deleting |
| `AclPersist.ChangeIsNotClean` | server/acl/acl.go:198-284 | every statement that changes something leaves it counted or visibly uncounted |
| `AclPersist.SaveKept` | server/acl/acl.go:323-355 | while nothing is pending a running save sees exactly the current state |
| `AclPersist.StepKeepsInv` | server/acl/acl.go:198-355 | every statement of every operation and of the saver is safe and keeps the whole invariant |
| `AclPersistRuns.RunKeepsInv` | server/acl/acl.go:198-355 | no run panics, and every run keeps the invariant |
| `AclPersistRuns.NoLostUpdate` | server/acl/acl.go:344-355 | in every interleaving, when nothing is in progress or pending and the last save wrote the file, the file is the current snapshot |
| `AclPersistRuns.TablesAgreeAtRest` | server/acl/acl.go:208-237 | in every interleaving, at rest both representations hold the same keys, each once |
| `AclPersistRuns.SnapshotIsSaved` | server/acl/acl.go:333-340 | the snapshot of a state is the file the sequential save of its value writes |
| `AclPersistRuns.RestartKeepsDecisions` | server/acl/acl.go:122-132 | at rest after a save a restart from the disk decides and accounts as the running server, if keys are enforced as stored |
| `AclPersistRuns.SaverCatchesUp` | server/acl/acl.go:344-355 | from every reachable moment with a counted change one undisturbed round of the saver brings the file up to date |
| `AclPersistRuns.FileAfterSaves` | server/acl/acl.go:323-342 | in every interleaving, at rest the file is current if the last save wrote it, holds nothing and is not current if the last save that opened it failed in writing, and is what the last one that opened it left when later ones could not |
| `AclPersistRuns.FailedSaveLosesUpdate` | server/acl/acl.go:347-353 | a run in which a save fails to open the file ends at rest with the update missing from it |
| `AclRestart.SurvivesExact` | server/acl/acl.go:122-132 | for every life of a key, refused calls and limits of the file included: a restart enforces the same exactly when no field the stored limit leaves open was limited before, no refused call since gave a field another number, no list is empty, and no lists outlived a removed limit |
| `AclRestart.LastCallDecides` | server/acl/acl.go:239-256 | when the last limit was accepted it alone decides: it must give every field again that was ever limited and send no empty list, and removing it is safe only if nothing was in force |
| `AclRestart.RestartExact` | server/acl/acl.go:122-132 | from a loaded file over every history of all operations, saving and reloading restores the live table exactly when the limit calls for every key left were careful |
| `AclPersistRestart.StepPast` | server/acl/acl.go:208-256 | every statement keeps each live key, its enforcement and its record, at what the limit calls made for it so far explain |
| `AclPersistRestart.RestartExactAtRest` | server/acl/acl.go:323-342 | in every interleaving, at rest after a save, a server started from the disk has the running live table exactly when the limit calls along the run were careful, and then decides and accounts the same |
| `AclPersistUsage.UsageInEveryRun` | server/acl/acl.go:198-206 | in every interleaving and at every moment a live key has used, in each direction, what the file gave it plus what the statements added since, or since its creation or last reset, modulo 2^64 |
| `AclPersistUsage.UsageConserved` | server/acl/acl.go:198-206 | in every interleaving without a reset or deletion of the key, once no call is half-way it has used what the file gave it plus what the calls reported, in both directions |
| `AclPersistUsage.ResetBetweenHalves` | server/acl/acl.go:277-284 | a reset between the two halves of a call keeps its Out bytes only |
| `AclPersistSolo.SoloUse` | server/acl/acl.go:198-206 | the statements of one undisturbed call have the effect of the sequential operation |
| `AclPersistSolo.SoloCreate` | server/acl/acl.go:208-225 | the same for creating a key |
| `AclPersistSolo.SoloRemove` | server/acl/acl.go:227-237 | the same for deleting a key |
| `AclPersistSolo.SoloLimit` | server/acl/acl.go:240-256 | the same for a limit, whose last statement is reached exactly when it was accepted |
| `AclPersistSolo.SoloReset` | server/acl/acl.go:277-284 | the same for resetting usage |
| `AclEdit.AddRules` | cmd/acl/access.go:12-20 | the loop appends the new rules in order and skips those already there; nothing appended to nil is nil |
| `AclEdit.DelRules` | cmd/acl/access.go:24-32 | the loop keeps the other rules in order and builds nil when none is left |
| `AclEdit.Update` | cmd/acl/access.go:71-107 | fetching, editing and sending back changes the server as the specified limit call; the list shown is the edited one even when it was refused, and is in force exactly if it was accepted or was so before |
| `AclEdit.MergeExact` | cmd/acl/access.go:11-21 | the old list stays in front, the rules are the old and the new ones, and none is introduced twice |
| `AclEdit.KeepExact` | cmd/acl/access.go:23-33 | exactly the rules not named stay |
| `AclEdit.KeepConcat` | cmd/acl/access.go:23-33 | each rule stays or goes by itself: deleting from two lists joined is deleting from each, so the rest keep order and number |
| `AclEdit.EditExact` | cmd/acl/access.go:71-107 | an accepted edit puts the edited list in force, none if it came out empty, and the other list and the texts as stored |
| `AclEdit.ResetExact` | cmd/acl/access.go:90-107 | after an accepted reset the list in force is exactly the given rules in order, and none if none are given |
| `AclEdit.DelExact` | cmd/acl/access.go:71-107 | after an accepted deletion exactly the other rules are in force, in order, and no list when none is left |
| `AclEdit.PlainRuleMatches` | cmd/acl/access.go:11-21 | a rule as an operator writes it matches the pair it names |
| `AclEdit.AddReachesDecision` | server/acl/acl.go:171-195 | after adding a plain rule the decision is the quota alone for the allow list, and a refusal for the deny list without an allow list |
| `AclEdit.DelLastAllowRule` | cmd/acl/access.go:23-33 | deleting the last allow rule lets everything through |
| `AclEdit.EditByteLimitsExact` | cmd/acl/access.go:71-88 | an edit leaves the byte limits alone exactly when the stored texts are the numbers in force |
| `AclEdit.EditsKeepByteLimits` | cmd/acl/access.go:71-107 | over every history without a refused limit every edit is accepted and moves no byte limit |
| `AclEdit.LoadStoredAgrees` | server/acl/acl.go:122-132 | a file whose limits parse starts such a history |
| `AclEdit.EditAfterRefusedLimit` | cmd/acl/access.go:76-81 | after a refused limit an edit does move a byte limit |
| `Stats.Consume` | server/stats.go:15-38 | the draining loop charges the events in order and skips those without bytes |
| `Stats.ChargeConserves` | server/stats.go:15-38 | a present key ends with its usage plus what its events report, modulo 2^64, negative counts included, and nothing else changes |
| `Stats.DeniedStaysDenied` | server/stats.go:36 | a denied key stays denied under further events as long as its bytes fit a uint64 |
| `Tools.SliceIndex` | spec/tools.go:21-28 | the first index of the value, or -1 exactly when it does not occur |
| `Tools.Uint16RoundTrip` | spec/tools.go:30-47 | both conversions are inverse to each other on two bytes, the high byte first |
| `DnsTables.ForwardExact` | dns/dns.go:75-85 | over every history a question is answered exactly when its latest response has not been evicted, with that response; none goes while the clock shows at most expiry plus delay |
| `DnsTables.FileAllAt` | dns/dns.go:87-98 | filing a response appends its name once per matching answer and leaves the expiry of an existing bucket alone |
| `DnsTables.NamesExact` | dns/dns.go:86-97 | a response adds only its own trimmed question, and adds it exactly when some answer has the address |
| `DnsTables.FilesPlainName` | dns/dns.go:86-97 | a response to a question n. files exactly n, under every address of its A and AAAA answers and the empty text of others, once for each such answer |
| `DnsTables.ReverseExact` | dns/dns.go:82-124 | over every history an address has a bucket exactly when the response that created it has not been evicted; its expiry is that response's and its names are those added since |
| `DnsTables.NamesAreSound` | dns/dns.go:86-97 | every name in a bucket is the trimmed question of a response since its creation that had the address |
| `DnsTables.NamesAreComplete` | dns/dns.go:86-97 | every such response has its name in the bucket |
| `DnsTables.ReverseLookupMeaning` | dns/dns.go:66-73 | a name is in a bucket if and only if a response since the bucket's creation had the address and that name |
| `DnsTables.BucketDiesFirst` | dns/dns.go:94-96 | a history after which a response is cached and fresh while its address has lost its bucket |
| `DnsTables.NameStaysExact` | dns/dns.go:82-124 | whatever is stored and evicted later, a response just filed keeps its name under the address while it is cached exactly when the bucket expires no earlier than the response by the drift of the clock within one eviction; with its own new bucket, exactly when the clock stands still |
| `DnsCache.Cache.Set` | dns/dns.go:82-99 | both tables stand for the history with this response added |
| `DnsCache.Cache.Index` | dns/dns.go:87-98 | the loop over the answers files the name under every address |
| `DnsCache.DeleteExpired` | dns/dns.go:103-112 | collecting expired keys in any order and deleting them afterwards filters the table |
| `DnsCache.Cache.Evict` | dns/dns.go:101-124 | both tables keep exactly the entries not past expiry plus delay at the time each was looked at |
| `DnsCache.MaxTtlExact` | dns/dns.go:278-283 | the time to live used is the longest among the answers, zero without any, and as a duration it does not overflow |
| `DnsCache.ExpiryExact` | dns/dns.go:277-287 | an entry expires 1,000,000,000 nanoseconds after now for every second of its longest-lived answer, not before any other, and at once without answers |
| `DnsCache.AddressesExact` | dns/dns.go:199-212 | the addresses are those of all A, or all AAAA, records in their order |
| `DnsCache.FoundExact` | dns/dns.go:168-197 | half a lookup finds the answers of the latest unevicted response, else those of the exchange, else none |
| `DnsCache.LookedExact` | dns/dns.go:168-181 | after half a lookup the question is cached unless the exchange failed, and what was stored is what it brought |
| `DnsCache.Cache.CacheResponse` | dns/dns.go:277-290 | the entry holds the response and expires that long after now, and every address of the response leads back to its name |
| `DnsCache.Cache.UpdateCache` | dns/dns.go:257-275 | a response is cached, with its expiry, exactly when the exchange gives one, or gives none without an error and the direct query succeeds; otherwise nothing changes |
| `DnsCache.Cache.Stamp` | dns/dns.go:241-243 | the reply is the cached response with the client's id, which the cache then holds too |
| `DnsCache.Cache.Query` | dns/dns.go:233-255 | a hit is exactly an unevicted latest response and is answered with it, changing its id alone; a refresh is asked for exactly when it is stale; a miss answers with what upstream said, which is the one response added |
| `DnsCache.Cache.Fetch` | dns/dns.go:168-181 | half a lookup finds the unevicted answers or those of the exchange, which in that case is the one response added |
| `DnsCache.LookedApart` | dns/dns.go:167-197 | the two halves of a lookup find the same in either order |
| `DnsCache.Cache.LookupIP` | dns/dns.go:156-219 | in either order of the two exchanges the addresses are those found for both questions, the IPv4 ones first, and none is an error; the responses fetched are added in that order and nothing else changes |
| `DnsCache.Cache.ReverseLookup` | dns/dns.go:221-231 | succeeds exactly when a bucket was created and not evicted, with the names added since |
| `Socks5Codec.ParseTargetExact` | socks5/socks5.go:173-205 | an address is read from bytes exactly when they start with its encoding |
| `Socks5Codec.ParseCommandExact` | socks5/socks5.go:164-212 | a command is read from bytes exactly when they start with its encoding |
| `Socks5Codec.ParseExact` | socks5/socks5.go:131-212 | bytes mean a request exactly when they start with its encoding by sections 3 to 5 of RFC 1928, for every number of methods and every name length; they are HTTP exactly when there are two and the first is 65 or above |
| `Socks5Codec.GreetedExact` | socks5/socks5.go:150-158 | the client is greeted exactly when its greeting is complete, whatever methods it offers |
| `Socks5Codec.EncodingPrefixFree` | socks5/socks5.go:131-212 | no request's bytes are the start of another's, so where the payload begins is determined |
| `Socks5Codec.ReplyRoundTrip` | socks5/socks5.go:229-238 | a client reading by section 6 of RFC 1928 gets back exactly the reply that was written |
| `Socks5Codec.ShortestExact` | socks5/udp.go:55-59 | an address is shortened exactly when it has 16 bytes, ten 0 and two 255 in front, and then to its last four |
| `Socks5Codec.CommandBytes` | socks5/socks5.go:164-212 | every byte of a command at its place, for each address type, the port with its high byte first |
| `Socks5Codec.RequestBytes` | socks5/socks5.go:131-212 | the greeting's bytes, then the command's, and nothing else |
| `Socks5Codec.ReplyLayout` | socks5/socks5.go:223-240 | every byte of a reply at its place |
| `Socks5Handshake.Fill` | socks5/socks5.go:132-136 | a read that does not bring all it should ends the handshake; otherwise exactly those bytes are consumed |
| `Socks5Handshake.ReadGreeting` | socks5/socks5.go:131-156 | reads the greeting the parser reads and consumes no byte more |
| `Socks5Handshake.ReadTarget` | socks5/socks5.go:173-205 | reads the address the parser reads, over one reused buffer |
| `Socks5Handshake.ReadCommand` | socks5/socks5.go:164-212 | reads the command the parser reads and consumes exactly its encoding |
| `Socks5Handshake.Answer` | socks5/socks5.go:215-267 | writes one complete reply, dials for CONNECT alone, and keeps the connection exactly for a successful CONNECT or UDP ASSOCIATE |
| `Socks5Handshake.RepliesReadable` | socks5/socks5.go:215-267 | what is written is nothing, the method reply, or that and one readable reply of 10 or 22 bytes, which grants the request exactly when the connection is handed over |
| `Socks5Handshake.LoopbackExact` | socks5/socks5.go:246-251 | loopback addresses are 127.x.x.x, mapped or not, and ::1 |
| `Socks5Handshake.ReplyMeaning` | socks5/socks5.go:215-266 | what the client reads in its reply: for CONNECT the bound address and port, zeros if there is none or the dial failed; for UDP ASSOCIATE the advertised port and address, the local address if the advertised one is loopback, IPv4 in 4 bytes; else not supported and zeros |
| `Socks5Handshake.UnansweredExact` | socks5/socks5.go:164-212 | whatever a greeted client sends, it gets no reply exactly when that is cut short at any point, of another version, or of an address type that is none of the three |
| `Socks5Handshake.UnknownTypeUnanswered` | socks5/socks5.go:202-205 | a request with an unassigned address type is left without a reply |
| `Socks5Handshake.ChosenMethodExact` | socks5/socks5.go:150-158 | the method chosen is one of those offered exactly when 0 is |
| `Socks5Handshake.UnofferedMethodChosen` | socks5/socks5.go:150-158 | a client that only offers user name and password is told that no authentication is needed |
| `Socks5Handshake.Handshake` | socks5/socks5.go:120-268 | every run with any reads and writes gives up or does what the parser says: same address and port dialed, exactly the request consumed, the right replies, closed exactly when not handed over; with full reads it always does what the parser says |
| `Socks5Udp.DecodePacket` | socks5/udp.go:67-104 | decodes from the buffer as specified, errors included, into a fresh copy of the address |
| `Socks5Udp.DecodeExact` | socks5/udp.go:67-104 | the packets accepted are exactly the encodings of section 7 of RFC 1928 without fragments and names |
| `Socks5Udp.DecodeErrors` | socks5/udp.go:67-97 | which packets are refused and with which error, by their bytes and length |
| `Socks5Udp.PacketLayout` | socks5/udp.go:54-59 | every byte of a packet at its place |
| `Socks5Udp.ReplyRoundTrip` | socks5/udp.go:54-59 | a reply decodes to address, port and payload with IPv4-mapped addresses shortened, and to the very address exactly when it was not mapped |
| `Socks5Udp.RepliesDistinguish` | socks5/udp.go:54-59 | equal replies have equal port and payload and addresses that differ at most in form |
| `Socks5Udp.ReplyAnswers` | socks5/udp.go:54-65 | a reply names the request's address byte for byte, or by its last four bytes if IPv4-mapped, and its port, before the answer |
| `Socks5Udp.Relay` | socks5/udp.go:27-65 | the payload that leaves is the request's, and the reply names its address byte for byte, a mapped one by its last four, although the answer overwrites the buffer |
| `StreamConn.Conn.Read` | spec/spec.go:50-82 | returns the next bytes and loses none, keeps nothing or at least one byte, shrinks a measure for a non-empty buffer, and reports an error only when nothing was kept, as the end exactly by its text |
| `StreamConn.Conn.Write` | spec/spec.go:87-97 | one message per call, all bytes claimed even on an error |
| `StreamConn.ReadMany` | spec/spec.go:50-82 | for any buffer sizes, zero included, what was returned and what is left is what there was; with non-empty buffers the number of successful reads is bounded |
| `StreamConn.Drain` | spec/spec.go:50-82 | reading on with non-empty buffers ends, with everything when the error only comes at the end |
| `StreamConn.Through` | spec/spec.go:50-97 | in any order of writes and reads, what is written in any pieces is read in any other pieces, in order; all of it when no write failed and the reader met its error at the end |
| `StreamConn.FailureTakenForEnd` | spec/spec.go:70-73 | any error text with a port such as 10001 counts as a clean end |
| `StreamConn.ContainsExact` | spec/spec.go:70-73 | a text is contained exactly if it is the text between some front and back |
| `StreamConn.NormalClosureExact` | spec/spec.go:70-73 | any text with StatusNormalClosure or 1000 in it ends the stream, and no other |
| `Pushback.Wrapper.Read` | socks5/http.go:30-41 | gives back what is held, then reads on inside, for any nesting; nothing is lost, repeated or reordered, and the connection is not touched before everything held is out |
| `Pushback.ReadAll` | socks5/http.go:30-41 | any reads bring the remaining bytes from the front on, and enough non-empty ones empty every wrapper |
| `Pushback.NestedOrder` | socks5/http.go:116-119 | outer bytes, then what the inner wrapper has left, then the connection |
| `Relay.WriteKeepsOrder` | spec/pipe.go:53-56 | after any write, short or failing, what went out is a first part of what was read, all of it unless the loop stopped uncleanly |
| `Relay.LastBytesGoOut` | spec/pipe.go:53-56 | bytes that come with an error or the end are written before the loop stops; a short or failing write stops it |
| `Pipe.StepKeepsInv` | spec/pipe.go:44-66 | every step of the two loops, the closes and the event keeps the invariant, for connections that hold bytes back and give them also after they were closed |
| `Pipe.StepDescends` | spec/pipe.go:44-66 | every step decreases a measure of the streams |
| `Pipe.EveryRun` | spec/pipe.go:44-66 | in every interleaving each side has been sent a first part of the other's stream, all of it after a clean end; one event at most, after both loops and both closes; runs are bounded |
| `Pipe.SomeStepEnabled` | spec/pipe.go:51-59 | until the event is out something can be done without anything failing on an open connection |
| `Pipe.Finish` | spec/pipe.go:44-66 | from every reachable state such steps lead to the event |
| `Pipe.UndisturbedOutcome` | spec/pipe.go:44-66 | when nothing goes wrong and nothing more can happen the event is out, one stream was delivered whole, and of the other exactly the bytes are missing that had not been read when its connection was closed |
| `Pipe.NothingAfterClose` | socks5/http.go:30-41 | once one direction has ended the other gets no more of what the peer sends and at most what is held on our side, and nothing at all exactly when nothing is held or it has stopped |
| `Pipe.EventOfRun` | spec/pipe.go:59-65 | the event of a run is exact exactly when no failing write was cut short on a connection that claims all bytes |
| `Pipe.EventExact` | spec/pipe.go:53-65 | the event is exact in every run exactly when each connection reports what it wrote also when a write fails, or gets nothing to write |
| `Pipe.Inflated` | spec/spec.go:94-96 | for every pair of streams with something to write to a connection that claims all bytes there is a run whose event is too large |
| `PipeEngine.Engine.PubEvent` | spec/pipe.go:32-34 | the event joins what is pending and is never dropped; the publisher waits exactly when 4096 are queued |
| `PipeEngine.Engine.Receive` | spec/pipe.go:37 | the oldest pending event is taken and the publisher that waited longest gets in |
| `PipeEngine.Engine.RunTrafficEventConsumeLoop` | spec/pipe.go:36-42 | the loop gives every pending event, those of waiting publishers included, to the consumers in order, until none is left |
| `PipeEngine.CallsAt` | spec/pipe.go:36-42 | call number i times the consumers plus j is event i given to consumer j, in the order of registration |
| `PipeEngine.EveryConsumerSeesAll` | spec/pipe.go:36-42 | every consumer is given every event once and in order |
| `PipeEngine.ConsumerSeesSince` | spec/pipe.go:28-42 | over the whole life of an engine a consumer is given every event taken once for each of its registrations before; registered once, exactly the events taken since |
| `PipeEngine.ActKeepsInv` | spec/pipe.go:28-42 | every single action of publishers, registrations and the loop, in any order, keeps queue, callers and order |
| `PipeEngine.EveryInterleaving` | spec/pipe.go:28-42 | however these actions interleave events come out as published, none lost or doubled, and between two events every consumer has been given exactly its due |
| `PipeEngine.LoopDrains` | spec/pipe.go:36-42 | from every reachable state the loop alone gives out everything published, to the last consumer |
| `Tunnel.StepKeepsInv` | server/server.go:127-147 | every step of dial, reply and the four loops keeps order, conservation and the place of the server's first message |
| `Tunnel.PrefixSafety` | server/server.go:127-147 | in every interleaving, chunking and failure the target has a first part of the payload and the application the reply and a first part of the target's bytes; nothing is lost before a loop stops |
| `Tunnel.ControlKeepsInv` | client/client.go:125-130 | the dial takes the server's first message, and only it, before the loops start |
| `Tunnel.EndToEnd` | socks5/socks5.go:86-103 | the handshake followed by what the target received is a first part of the application's stream, and one granting reply precedes the target's bytes |
| `TunnelEnd.StepDescends` | server/server.go:127-147 | every step, failing or not, decreases a measure of the session |
| `TunnelEnd.RunBounded` | server/server.go:127-147 | no run of a session is longer than a bound known from the streams |
| `TunnelEnd.CanDeliver` | socks5/socks5.go:86-103 | from every reachable state in which no loop has ended everything can still be delivered both ways |
| `TunnelEnd.StepKeepsCauses` | socks5/socks5.go:82-103 | in an undisturbed session every loop that stops does so at the end of its source or because its side, or the server, has closed |
| `TunnelEnd.SessionEnds` | server/server.go:131-147 | an undisturbed session that has come to rest is over on the server, and with it everywhere, exactly when the target ends its stream; the client closes the application when either peer ends |
| `TunnelEnd.NothingAfterReturn` | socks5/socks5.go:82-85 | after the client's first loop has ended and the connection is closed the application gets nothing more |
| `TunnelAnswer.AnswerExact` | socks5/socks5.go:82-103 | when nothing goes wrong the application is sure to get all the target sent exactly if there is nothing to get, or if it does not end its stream and either the target does not end its own or the application sends nothing |
| `TunnelAnswer.EndingFirstLosesAnswer` | socks5/socks5.go:88-103 | every session in which the application ends its stream can come to rest without a byte of the answer |
| `TunnelAnswer.SendingOnLosesAnswer` | socks5/socks5.go:88-103 | so can every session in which the target ends its stream and the application has something to send |
| `TunnelAnswer.PayloadExact` | server/server.go:131-147 | when nothing goes wrong the target is sure to get the whole payload exactly if there is none or it does not end its stream |
| `TunnelAnswer.Settle` | server/server.go:127-147 | every undisturbed session can be continued until it is at rest |

## Left out

What the models do not contain:

- The state of the access list is changed under interleaving of whole statements; torn reads and compiler or memory-order effects of the unlocked accesses (server/acl/acl.go:198-201, 333-340, 347) are not modelled.
- The JSON encoder of a save is modelled as reading the list's header once and then one record at a time.
- Bytes that a running `UpdateBytesUsage` adds to a key deleted meanwhile go to an object nobody reaches; the dying record does not show them.
- A limit is an immutable value, although the program stores and returns pointers to them (server/acl/acl.go:251, 264).
- The pending counter is unbounded; it is an int64 in the program.
- Generated keys are fresh, and no operation names a key before `NewKey` has returned it; random bytes and base58 are not modelled.
- Files have unique keys where agreement of the two representations is stated; `SliceDelete.DeleteExact` says what deletion does otherwise.
- The first start without a file, which writes a default key, and the admin key file (server/acl/acl.go:79-86, 97-113).
- `humanize.ParseBytes` is an arbitrary partial function from texts to uint64.
- Responses have at least one question, which `set` takes for granted (dns/dns.go:86).
- DNS queries are handled one at a time; two entries that share one response object, and the race on its id (dns/dns.go:242), are not modelled. The refresh of a stale answer is a flag of the query and a later `UpdateCache`.
- The addresses in DNS answers are texts; how they are printed is not modelled. Clock readings are given from outside, one per entry looked at.
- Where the platform's int has 32 bits, a time to live above 2^31 - 1 would be negative (dns/dns.go:280); here it has 64.
- An exchange in a lookup that gives neither a response nor an error, on which the program panics (dns/dns.go:174-179).
- A pipe between missing connections, which does nothing (spec/pipe.go:45-47).
- `HTTPProxyServer.handle` and the hand-over to it: its buffered reader and the concurrent drain in `Run` (socks5/socks5.go:105-113) read the same connection.
- A failed dial returns no connection, and advertised and bound addresses are 4 or 16 bytes, as in a configuration that parses.
- Texts of addresses: targets are handed on as bytes, not as host and port texts.
- gRPC, TLS, sockets and the message adapter under the tunnel, which is taken to keep the order of bytes and to cut them into messages in any way.
- In the tunnel any read or write may fail at any time; that the end of a handler cancels its stream is modelled as the queue being readable to its end and closed for writing.
- Deadlines, `PacketConnWrapper`, health checks, the command line, admin handlers, `Resolver.LookupIP`, logging and configuration: plumbing.
- Nothing in the program starts the consume loops or publishes an event per session; only the loops themselves are modelled.

Stated weaker than one might wish:

- AclPersistRuns.NoLostUpdate: needs the last save to have written the file; the converse is not claimed, because a failed save that had nothing new to write leaves a current file. The file the server was started with counts as current up to nil against zero usage and nil against empty lists.
- AclPersistRuns.RestartKeepsDecisions: one direction, because decisions may also agree by chance; the exact condition for the live table itself is `AclPersistRestart.RestartExactAtRest`.
- AclPersist.StepSafe: assumes an encoder that reads the list's header once; the encoder is not part of this model, and one that reads it again could index past a list that `DelKey` has shortened.
- AclPersistRuns.RunKeepsInv: takes every statement as atomic; `NewKey` writes the map outside the lock while the saver reads it (server/acl/acl.go:216, 334), which Go may report as a fatal error.
- AclServer.NewACL: a file in which a key occurs twice is accepted by the program; what deletion then does to its list is `AclServer.RemoveRecords` and `SliceDelete.DeleteExact`.
- AclServer.Server.DelKey: the same for the objects built from such a file.
- Socks5Handshake.Handshake: says what was written only while no write failed.
- TunnelEnd.CanDeliver: everything can be delivered; that it will be needs that no peer ends first (`TunnelAnswer.AnswerExact`).
- Stats.DeniedStaysDenied: needs non-negative counts that do not wrap; `Quota.DenialStableExact` says when wrap matters.
