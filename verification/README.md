# A verified model of the Desktop2Stereo site

The site is a gateway in front of model providers, with accounts, payments and administration. This project models the
parts of its Go code whose behaviour is hard to see from one function, and proves what every run of them keeps. Run
`dafny verify dfyconfig.toml` (Dafny 4.11) to check all of it.

| file | what it models |
|---|---|
| `WorkerPool.dfy` | the bounded pool of goroutines that tests channels: feeder, workers, closer and reducer over unbuffered channels, cancelled at any moment |
| `ModelNames.dfy`, `UpstreamUpdate.dfy` | the reconciliation of a channel's models with what its upstream offers |
| `KeysetScan.dfy` | the scans over all enabled channels, batch by batch |
| `BatchControl.dfy` | preview, confirmation and application of emergency blocks to many users, with concurrent transactions |
| `KeyText.dfy`, `MultiKey.dfy`, `KeyStorage.dfy` | the keys of a multi-key channel: one text and three sparse index maps |
| `RateLimiter.dfy`, `OneTimeCodes.dfy`, `Captcha.dfy` | the in-memory limiter, verification codes and click captcha |
| `DiskCache.dfy`, `BodyStorage.dfy`, `StorageAccounts.dfy`, `StorageObjects.dfy` | request bodies in memory or on disk, and the counters kept about them |
| `OggScan.dfy` | the scan for Ogg pages that finds the length of an Opus stream |
| `TradeNumber.dfy`, `Amounts.dfy`, `CanonicalString.dfy` | Alipay trade numbers, amounts and the text that is signed |
| `Quota.dfy` | saturating conversion to quota and the settlement of a channel test |
| `GoText.dfy`, `Machine.dfy`, `Sequences.dfy`, `Wrappers.dfy` | `strings.TrimSpace`, `Split`, `Join` and `Trim`, machine integers, sequences without repetition, and an option type |

Code that updates fields is a class or a method with loops, each proved against a function of the old state; goroutines
and transactions are transition systems; what the code promises over whole runs is stated about those.

Several promises do not hold on all inputs. The code is modelled as it is, and the theorem is the exact condition:

- One round of detecting and applying upstream models settles, unless a pending model's name holds a comma (names are
  stored comma-separated) or the name of an added model is itself an ignore entry that hides another model
  (`OneRoundSettles`). With a comma no number of rounds settles (`CommaNeverSettles`); without commas a bounded number
  does (`EnoughRoundsSettle`). A comma can also leave a name both local and pending (`DoKeepsApart`).
- A key deletion does what it says if and only if it leaves keys and their text reads back as the same keys
  (`RunExactly`). An empty key in the middle can be lost and an auto-disabled key enabled with it (`EmptyKeyLost`), a
  key that spans lines is split (`BrokenKeySplits`), and deleting the auto-disabled keys when all keys are auto-disabled
  enables them instead (`DeleteDisabledEnablesAll`): the empty text is not written, but the cleared maps are.
- Two overlapping batch applies can undo each other's flag (`LostUpdate`); the flags that a preview does not name survive
  a commit if and only if they have, at the commit, the values they had where the transaction began, so they survive
  when nobody wrote the row in between (`UnrequestedFlagSurvives`).
- The comparison of the selected with the previewed users is a permutation test exactly for lists without repetition
  (`ComparisonExactly`); the selection never repeats a user (`CollectUserIDs`).
- The limiter answers as the full log does if and only if it has no sweeper or no window is longer than the key expiry
  plus one second (`RefinesExactly`); the comment in common/constants.go asks for one second less than that. Every window
  holds at most the limit if and only if, besides, the limit is at least 1 (`BoundExactly`): a limit of 0 admits one
  request in each window.
- The captcha accepts exactly the clicks that pair off with the targets, and their order never matters, if and only if
  the targets are closed or one of them cannot be hit at all (`RightExactly`, `OrderExactly`). Closed means: whenever a
  click hits targets i < j and another click hits i, the other one hits j too. Some order is accepted whenever the clicks
  pair off (`SomeOrderAccepted`). Whether the captcha library ever places targets whose padded boxes overlap is not
  decided in this repository; the matcher takes any stored targets.
- Memory and disk storage answer alike, unless an empty buffer is read at the end, one read asks for and could get more
  than 1 GiB, or a replay reader is used after its own close (`StoragesAgree`).
- A stream is taken in whole or refused by its length, unless `maxBytes + 1` wraps (`TakesInWithinLimit`), and a stream
  longer than its content length can push the disk cache over its limit (`StreamKeepsLimit`).
- The signed text stands for one set of fields, among all fields whatever, if and only if it holds at most one '='
  (`TextFixesExactly`). Among fields whose names hold no '=' or '&' and whose values hold no '&' it always does
  (`TextFixesFields`); a value with '&' can stand for a second field (`SeparatorCollides`).

## Model

| member | source | states |
|---|---|---|
| WorkerPool.HealthCheck | controller/channel-test.go:920-964 | Tested = Succeeded + Failed, Disabled ≤ Failed and Disabled + Enabled ≤ Tested for one check; it counts as tested iff not cancelled, and exactly which fields of the probe make it count as failed, disabled and enabled |
| WorkerPool.StepKeepsInv | controller/channel-test.go:993-1056 | every enabled step of a worker, the feeder, the closer, the reducer or a cancellation keeps the pool invariant |
| WorkerPool.RunKeepsInv | controller/channel-test.go:993-1056 | every state of every interleaving satisfies the invariant, wherever the cancellation falls |
| WorkerPool.StepDecreasesMeasure | controller/channel-test.go:993-1056 | every step decreases a natural-number measure |
| WorkerPool.RunsAreBounded | controller/channel-test.go:987-1057 | no schedule has more than 6·total + workerCount + 4 steps, so the pool cannot run for ever |
| WorkerPool.Progress | controller/channel-test.go:987-1057 | deadlock freedom: until the caller has returned, some step other than a cancellation is enabled |
| WorkerPool.MaximalRunsReturn | controller/channel-test.go:987-1057 | a schedule that cannot go on has closed `results` and returned to the caller |
| WorkerPool.ConcurrencyBounded | controller/channel-test.go:987-1020 | in every state, no channel was started twice, only eligible channels were started, and at most workerCount runs are in flight |
| WorkerPool.ReturnedAccounting | controller/channel-test.go:1042-1056 | on return every computed result was added exactly once, cancelled or not; uncancelled, every channel was processed, every eligible one was run, and progress was reported as 0, 1, …, total |
| WorkerPool.ScheduleIndependent | controller/channel-test.go:1042-1056 | with a fixed outcome per channel the uncancelled summary is the same for every schedule |
| WorkerPool.SummaryAddsUp | controller/channel-test.go:920-1056 | at every moment of every schedule whose runs are health checks the summed counters satisfy the equations of one check and Tested is at most the number of eligible channels; an uncancelled call that has returned has tested every eligible channel |
| WorkerPool.CountersExactly | controller/channel-test.go:920-1056 | at every moment of every schedule each of the five counters is the number of eligible channels, among those whose result was received, whose probe was not cut off by the cancellation and meets the spelled-out condition of that counter; when an uncancelled call has returned, those are all the eligible channels |
| GoText.TrimSpaceIsMiddle | controller/channel_upstream_update.go:101-106 | trimming a name takes a run of spaces off each end and nothing else |
| ModelNames.NormalizeMeans | controller/channel_upstream_update.go:101-106 | normalizing gives the set of trimmed non-empty names, each once |
| ModelNames.NormalizeInOrder | controller/channel_upstream_update.go:101-106 | the names keep the order of their first occurrences |
| ModelNames.KeepInOrder | controller/channel_upstream_update.go:124-144 | what subtracting or intersecting leaves keeps its order |
| ModelNames.NormalizedFixed | controller/channel_upstream_update.go:101-106 | a normalized list is its own normal form |
| ModelNames.MergeModelNames | controller/channel_upstream_update.go:108-122 | the loop with its `seen` set computes the merge that `MergeMeans` characterises |
| ModelNames.MergeMeans | controller/channel_upstream_update.go:108-122 | merging is set union without repetition, and leaves the base alone when it adds nothing |
| ModelNames.SubtractMeans | controller/channel_upstream_update.go:124-133 | subtracting is set difference without repetition, and leaves the base alone when nothing is taken away |
| ModelNames.IntersectMeans | controller/channel_upstream_update.go:135-144 | intersecting is set intersection without repetition, and leaves the base alone when all of it is allowed |
| ModelNames.ApplySelectedMeans | controller/channel_upstream_update.go:146-151 | the result is the additions and what is left of the original: adding wins over removing |
| ModelNames.ApplySelectedNothing | controller/channel_upstream_update.go:146-151 | an empty selection only normalizes the list |
| UpstreamUpdate.StoredNames | model/channel.go:294-299 | a list written to the column reads back as the names of its comma-separated pieces |
| UpstreamUpdate.StoredLocal | model/channel.go:294-299 | comma-free names are read back, and nothing else when all are comma-free |
| UpstreamUpdate.LocalHasNoComma | model/channel.go:294-299 | no local name ever holds a comma |
| UpstreamUpdate.CollectMeans | controller/channel_upstream_update.go:180-239 | exactly which names are pending additions and removals, as sets over local, upstream, ignored and alias names |
| UpstreamUpdate.DetectMeans | controller/channel_upstream_update.go:510-557 | exactly what one detection leaves pending, ignored and local, with and without automatic application, commas included |
| UpstreamUpdate.DetectedExactly | controller/channel_upstream_update.go:180-239 | after a due check that fetched the upstream names, a name is a pending removal iff it is local, no alias and not offered, and a pending addition iff it is offered, not local, not the target of an alias, and no ignore entry names it or matches it as a pattern, and additions are not applied automatically |
| UpstreamUpdate.ChecksWithoutAnswer | controller/channel_upstream_update.go:510-530 | an unforced check too soon after the last changes nothing, and one whose fetch fails only its time |
| UpstreamUpdate.RoundLeavesOffered | controller/channel_upstream_update.go:214-238 | when no new name holds a comma, after a round every local name that is no alias is offered by the upstream |
| UpstreamUpdate.ApplyPending | controller/channel_upstream_update.go:955-1003 | what an apply added, removed and left pending |
| UpstreamUpdate.ApplyIgnored | controller/channel_upstream_update.go:968-1003 | the ignored names after an apply: the old and the newly ignored ones without the added ones |
| UpstreamUpdate.ApplyLocalExactly | controller/channel_upstream_update.go:955-1003 | the local names after an apply are the kept ones and the comma-separated pieces of the added ones |
| UpstreamUpdate.OneRoundSettles | controller/channel_upstream_update.go:146-239 | for all inputs, after one detect-and-apply-everything round a second detection finds nothing and a second apply changes nothing, if and only if no pending name holds a comma and every hidden upstream name is hidden by an entry that is not being added |
| UpstreamUpdate.PlainUpstreamSettles | controller/channel_upstream_update.go:180-239 | upstream names without commas and without the pattern prefix always meet that condition |
| UpstreamUpdate.CommaNeverSettles | controller/channel_upstream_update.go:180-239 | while a pending name holds a comma it is pending again after every number of rounds, and none of them has settled |
| UpstreamUpdate.CommaExample | controller/channel_upstream_update.go:180-239 | a channel without models whose upstream offers such a name never settles |
| UpstreamUpdate.EnoughRoundsSettle | controller/channel_upstream_update.go:180-239 | without commas every unsettled round makes a missing name local, so one round more than there are missing names settles |
| UpstreamUpdate.PatternNameUnhides | controller/channel_upstream_update.go:955-1003 | adding a model that is an ignore entry drops the entry, and if it alone hid another upstream model the round has not settled |
| UpstreamUpdate.PatternExample | controller/channel_upstream_update.go:955-1003 | such a channel: no models, one pattern ignored, and an upstream that offers the pattern and a name it hides |
| UpstreamUpdate.DetectKeepsApart | controller/channel_upstream_update.go:525-556 | a detection keeps the run invariant whatever the upstream sends |
| UpstreamUpdate.DoKeepsApart | controller/channel_upstream_update.go:968-1003 | an apply keeps the run invariant if and only if no added name has, as a comma-separated piece, a name left pending |
| UpstreamUpdate.RunKeepsApart | controller/channel_upstream_update.go:525-556 | over every run of detections and partial applies: pending additions stay outside local and literally ignored names, pending removals inside local names and off aliases, throughout, if and only if every apply is clean in that sense |
| UpstreamUpdate.CommaSpoilsPending | controller/channel_upstream_update.go:968-1003 | adding "a,b" while "a" stays pending makes "a" local and pending, and breaks the run invariant |
| UpstreamUpdate.RunKeepsInv | controller/channel_upstream_update.go:525-556 | with comma-free upstream names the invariant holds over every run |
| UpstreamUpdate.IgnoredStays | controller/channel_upstream_update.go:214-238 | over every run, a literally ignored name stays ignored and is never pending again |
| UpstreamUpdate.AliasStays | controller/channel_upstream_update.go:214-238 | over every run, a local alias is never proposed for removal and never disappears |
| UpstreamUpdate.PendingEndsOnce | controller/channel_upstream_update.go:968-1003 | where every pending addition ends; it ends in exactly one of added, ignored and still pending iff it was not ignored already or the selection names it; adding wins, and an added name is local iff it holds no comma |
| UpstreamUpdate.AutoSyncSettles | controller/channel_upstream_update.go:534-546 | after an automatic application the next detection proposes nothing iff no added name held a comma |
| UpstreamUpdate.ChannelRow.CheckAndPersist | controller/channel_upstream_update.go:510-557 | the stored row becomes the detected one, or stays as it was when saving fails |
| UpstreamUpdate.ChannelRow.Apply | controller/channel_upstream_update.go:955-1003 | the stored row becomes the applied one and the result reports it, or both stay as they were when saving fails |
| KeysetScan.FindEnabledChannelsAfterID | controller/channel_upstream_update.go:1009-1020 | a batch is the next `limit` enabled identifiers above the last one, in ascending order |
| KeysetScan.VisitedAscends | controller/channel_upstream_update.go:709-797 | whatever is inserted, removed or disabled between batches, identifiers strictly increase, so none is visited twice |
| KeysetScan.VisitedComplete | controller/channel_upstream_update.go:709-797 | on an unchanged table a scan has visited every enabled channel up to its last identifier, and no other |
| KeysetScan.ScanAll | controller/channel_upstream_update.go:1029-1084 | the loop ends, stopping at a short or empty batch, having visited every enabled channel exactly once |
| BatchControl.CollectUserIDs | controller/d2s_admin_batch.go:118-129 | exactly the users with a registration in the address range, each once |
| BatchControl.SameUserIDs | controller/d2s_admin_batch.go:140-154 | without repetitions on the right, the test holds iff the lists are permutations of each other |
| BatchControl.SameIsPermutation | controller/d2s_admin_batch.go:140-154 | equal length and inclusion force a permutation (pigeonhole) |
| BatchControl.ComparisonExactly | controller/d2s_admin_batch.go:140-154 | for every previewed list: the test accepts only permutations iff the list has no repetition |
| BatchControl.UpsertLoop | controller/d2s_admin_batch.go:278-298 | the loop computes the upserts that `CommitTouchesPreviewedUsers` and `UnrequestedFlagSurvives` characterise |
| BatchControl.RunKeepsInv | controller/d2s_admin_batch.go:234-320 | every state of every interleaving of previews, applies and other writes satisfies the protocol invariant |
| BatchControl.CommitsAreInOrder | controller/d2s_admin_batch.go:234-320 | each preview commits at most once, by its own administrator, before expiry, on an explicit confirmation that states the number of its users, for exactly those users and never more than 10000; consumed previews are exactly the committed ones |
| BatchControl.OpenIsConfirmed | controller/d2s_admin_batch.go:224-262 | at every moment of every run, each open transaction comes from such a confirmation, by the administrator of its preview, before expiry |
| BatchControl.PreviewsExactly | controller/d2s_admin_batch.go:156-222 | a preview is stored iff some flag is requested and the selection succeeds with at most 10000 users; it holds them, is unconsumed and expires after 300 seconds |
| BatchControl.BeginsExactly | controller/d2s_admin_batch.go:224-262 | in every run, an apply opens a transaction iff it is confirmed, by the administrator of an unexpired, unconsumed preview, with the number of its users, and the selection still gives those users |
| BatchControl.RefusalsAreLogged | controller/d2s_admin_batch.go:224-334 | a refused apply changes nothing but adds one FAILED audit, and exactly when that audit names the operation of the preview |
| BatchControl.CommitsExactly | controller/d2s_admin_batch.go:299-306 | in every run, an open transaction commits iff no transaction has committed its preview before; the commit is of the request and the users it was opened with, and consumes the preview |
| BatchControl.GoodApplySucceeds | controller/d2s_admin_batch.go:224-334 | a good request, however interleaved, is committed unless its transaction is aborted or another one commits the same preview first |
| BatchControl.AuditsMatchCommits | controller/d2s_admin_batch.go:299-341 | the SUCCESS apply audits are, in order, one for each commit, with its administrator and time, as a lock iff the preview switches some flag on and as an unlock otherwise |
| BatchControl.FailedAppliesChangeNothing | controller/d2s_admin_batch.go:234-334 | over any stretch of a run without a commit and without an outside write, whatever applies begin and fail, control rows, commits and existing previews stay as they were |
| BatchControl.CommitTouchesPreviewedUsers | controller/d2s_admin_batch.go:278-298 | a commit leaves all other users alone and gives each previewed user the requested flags, the reason and the stamps |
| BatchControl.UnrequestedFlagSurvives | controller/d2s_admin_batch.go:234-304 | the flags a preview does not name keep their values through a commit iff they have at the commit the values they had in the state where the transaction began; so they do if no step in between wrote that user's row |
| BatchControl.ReadsWhereItBegan | controller/d2s_admin_batch.go:234-277 | an open transaction was opened by an earlier step, has been open ever since, and holds the control rows of the state before that step |
| BatchControl.LostUpdate | controller/d2s_admin_batch.go:278-304 | two overlapping applies both succeed and one loses its block |
| MultiKey.PersistView | model/channel.go:556-603 | persisting drops only entries that no key has |
| MultiKey.KeepingActionRefines | controller/channel.go:1692-1846 | disabling and enabling one or all keys does to the text and the three maps what it does to the record list |
| MultiKey.KeepingActionMeans | controller/channel.go:1692-1846 | record by record, in plain statuses: what disabling or enabling one or all keys leaves of each key, and that enabling forgets time and reason while disabling keeps them |
| MultiKey.RebuildMeans | controller/channel.go:1866-1899 | after re-indexing, every surviving key has its own status, time and reason |
| MultiKey.DeleteKeyExactly | controller/channel.go:1848-1926 | deleting one key of several removes its record and no other iff the remaining text reads back |
| MultiKey.DeleteDisabledExactly | controller/channel.go:1928-1995 | deleting the auto-disabled keys leaves exactly the other records iff the remaining text reads back |
| MultiKey.SurvivorsMean | controller/channel.go:1938-1975 | the records meant to be left are those with a status other than 3; enabled ones lose a left-over time and reason |
| MultiKey.DeleteDisabledEnablesAll | controller/channel.go:1928-1995 | if every key is auto-disabled they are all enabled instead and the text stays |
| KeyText.KeysOfText | model/channel.go:180-202 | a text whose first character after spaces is a bracket holds the keys of the array, if it decodes, and any other text one key on each line |
| KeyText.LinesReadBack | model/channel.go:180-202 | keys whose text does not begin like a JSON array read back iff there is one, none holds a newline and neither the first nor the last is empty |
| KeyText.PlainReadsBack | model/channel.go:180-202 | non-empty keys that hold no newline and do not begin like a JSON array always read back |
| MultiKey.ActionExactly | controller/channel.go:1692-1995 | each action on a channel whose size an update has computed does what is meant to the record list iff a deletion leaves keys whose text reads back |
| MultiKey.RunExactly | controller/channel.go:1692-1995 | for every way of writing keys as text, every such channel and every sequence of actions, the stored form represents the intended records throughout iff every deletion leaves keys whose text reads back |
| KeyStorage.StoredRunExactly | controller/channel.go:1692-1995 | the same for the texts that the channel actually stores, a JSON array or one key a line |
| KeyStorage.EmptyKeyLost | controller/channel.go:1848-1926 | with an empty key between two others and the last auto-disabled, deleting the first loses the empty key and enables the last |
| KeyStorage.BrokenKeySplits | controller/channel.go:1848-1926 | with a JSON array whose second key spans two lines and is auto-disabled, deleting the first leaves two keys, one of them enabled |
| KeyStorage.PlainRunRefines | controller/channel.go:1692-1995 | for plain keys and every sequence of actions, the stored form represents the record list, with the last-key case as the code has it |
| MultiKey.PagesTile | controller/channel.go:1653-1674 | pages 1 to totalPages tile the filtered listing: nothing missing, repeated or reordered |
| MultiKey.PageIsClamped | controller/channel.go:1579-1590 | a page outside the range is the nearest one, a missing page size is 50, and the page reports its numbers |
| MultiKey.PageBounds | controller/channel.go:1655-1658 | there are as many pages as needed, and one for an empty listing |
| MultiKey.ListedHas | controller/channel.go:1578-1652 | every key with the requested status, or every key, has a line with its index, status, first ten characters, and, if disabled, time and reason |
| MultiKey.ListedOnly | controller/channel.go:1578-1652 | every line shows such a key in that way, and lines come in key order |
| MultiKey.KeyChannel.SetKey | controller/channel.go:1692-1775 | `disable_key` and `enable_key` as one action on the stored form; refused iff the index is out of range |
| MultiKey.KeyChannel.DisableAll | controller/channel.go:1801-1846 | `disable_all_keys` as one action on the stored form; without an enabled key nothing is written |
| MultiKey.RebuildLoop | controller/channel.go:1866-1899 | the rebuilding loop computes the re-indexed maps of `RebuildMeans` |
| MultiKey.DisableLoop | controller/channel.go:1813-1825 | every enabled index is marked as manually disabled, and the count is zero iff nothing changed |
| MultiKey.KeyChannel.DeleteKeyAt | controller/channel.go:1848-1926 | `delete_key` as one action on the stored form; the last key and bad indexes are refused |
| MultiKey.KeyChannel.DeleteAutoDisabled | controller/channel.go:1928-1995 | `delete_disabled_keys` as one action on the stored form |
| MultiKey.KeyChannel.GetKeyStatus | controller/channel.go:1578-1690 | the page of the filtered listing, and the number of keys in each state |
| RateLimiter.RecentByLast | common/rate-limit.go:45-70 | fewer than the limit lie in the window iff the limit-th last admission is outside it |
| RateLimiter.AdmitDecides | common/rate-limit.go:45-70 | the bounded queue decides as the full log does, and remembers enough for the next decision |
| RateLimiter.WindowBound | common/rate-limit.go:45-70 | no half-open window of the duration holds more admissions than the limit |
| RateLimiter.RunOK | common/rate-limit.go:28-70 | over every run of requests and sweeps, if the window of a key is at most the expiry plus one second or there is no sweeper, its queue remembers what matters of the requests admitted for it, each of which the rule of the full log admits; other keys do not matter |
| RateLimiter.LimiterRefinesLog | common/rate-limit.go:14-70 | with such windows for all keys, queue and background deletion answer every request as the full log does and admit the same requests |
| RateLimiter.LongWindowDisagrees | common/rate-limit.go:28-70 | with a sweeper and any longer window, a burst that fills it, one sweep and one more request make the limiter admit what the log refuses, and overfill a window |
| RateLimiter.RefinesExactly | common/rate-limit.go:14-70 | for all settings: every run agrees with the log iff there is no sweeper or no window is longer than the expiry plus one second |
| RateLimiter.BoundExactly | common/rate-limit.go:14-70 | for all settings: every window of every run holds at most the limit iff the limit is at least 1 and the window is at most the expiry plus one second or there is no sweeper, or the duration is not positive |
| RateLimiter.InMemoryRateLimiter.Request | common/rate-limit.go:45-70 | the answer and the new queues are those of the specified request |
| RateLimiter.InMemoryRateLimiter.ClearExpiredItems | common/rate-limit.go:28-42 | a sweep removes exactly the keys idle for longer than the expiry |
| Captcha.AcceptedIsBijection | controller/captcha.go:188-208 | acceptance means clicks and targets pair off one to one, each click hitting its target |
| Captcha.GreedyFindsMatching | controller/captcha.go:188-208 | if no click hits two targets, the greedy loop finds the matching there is |
| Captcha.AcceptsIffBijection | controller/captcha.go:188-208 | if the clicks are closed (one that hits an earlier target of another hits its later ones too), acceptance holds iff a bijection exists; clicks that each hit at most one target are closed |
| Captcha.OrderDoesNotMatter | controller/captcha.go:188-208 | if the clicks are closed, any order of them gives the same answer |
| Captcha.SomeOrderAccepted | controller/captcha.go:188-208 | for all clicks and targets: a bijection exists iff the loop accepts the clicks in some order |
| Captcha.Refused | controller/captcha.go:188-208 | if one click hits targets i < j, another hits i and not j, and every target can be hit, some clicks that pair off are refused |
| Captcha.RightExactly | controller/captcha.go:188-208 | for all targets: the loop accepts exactly the clicks that pair off iff the targets are closed or one of them cannot be hit |
| Captcha.OrderExactly | controller/captcha.go:188-208 | for all targets: the order of clicks never matters iff the loop accepts exactly the clicks that pair off |
| Captcha.AmbiguityDependsOnOrder | controller/captcha.go:188-208 | the smallest case: two clicks and two targets, one order refused and the other accepted, though a bijection exists |
| Captcha.MatchClicks | controller/captcha.go:188-208 | the nested loops over the `matched` array compute the greedy matching |
| Captcha.CaptchaStore.LoadAndDelete | controller/captcha.go:102-121 | the challenge is gone afterwards and returned only before its expiry |
| Captcha.CaptchaStore.Verify | controller/captcha.go:180-209 | a success means that the identifier was stored at most five minutes ago and that clicks and stored targets pair off one to one, each click on the image and hitting its target; for closed targets, and for targets one of which cannot be hit, that is sufficient too; verification uses up the challenge, whatever the clicks are, unless the request is malformed |
| Captcha.ConsumedOnce | controller/captcha.go:102-121 | over every run a stored challenge is used up by at most one verification and accepted at most once |
| Captcha.FirstAnswerDecides | controller/captcha.go:102-121 | over every run, the first answer to a stored challenge uses it up, and it is accepted only if that answer was in time and its clicks pair off with the stored targets; where the greedy loop is right, exactly then |
| Captcha.AcceptedPairsOff | controller/captcha.go:180-209 | over every run, every accepted challenge had such a first answer, in time and paired off |
| OneTimeCodes.VerificationCodes.RegisterVerificationCodeWithKey | common/verification.go:90-100 | the code replaces an older one; a large map is swept of expired pairs |
| OneTimeCodes.VerificationCodes.VerifyCodeWithKey | common/verification.go:107-121 | success iff the pair is stored with the digest of the code and is younger than the set minutes, with 10 for none and at most 15; a success or an expiry removes the pair |
| OneTimeCodes.VerificationCodes.RemoveExpiredPairs | common/verification.go:139-146 | exactly the expired pairs are removed |
| OneTimeCodes.KeysDoNotClash | common/verification.go:90-100 | purposes of equal length keep concatenated keys apart |
| OneTimeCodes.RunAgrees | common/verification.go:90-146 | over every run the map with evictions answers as a reference that never evicts |
| OneTimeCodes.UnusedIsLatest | common/verification.go:90-121 | what the reference holds is the latest registration not deleted, replaced or used since |
| OneTimeCodes.UsedOnce | common/verification.go:107-121 | successful verifications consume distinct registrations |
| OneTimeCodes.SuccessMeans | common/verification.go:107-121 | a verification succeeds iff its code has the digest of the latest registration for that purpose and key, younger than the minutes set, with no delete, replacement or success since |
| DiskCache.Stats.DecrementDiskFiles | common/disk_cache_config.go:115-122 | one file less, and its bytes, each stored as zero when it would be negative |
| BodyStorage.SeeksAgree | common/body_storage.go:71-78 | adding in wrapped 64 bits and refusing negative sums is the same as refusing what is out of range |
| BodyStorage.ReadsAgree | common/body_storage.go:62-69 | a slice and a file at the same place give the same bytes and cursor unless the read is a telling one, and then the answers differ |
| BodyStorage.SeekThenRead | common/body_storage.go:62-78 | a seek goes to the place named from the start, the cursor or the end, or is refused before the start and past 64 bits; the next read gives what is there, from memory and from disk |
| BodyStorage.ClosedAnswers | common/body_storage.go:62-108 | a closed storage of either kind refuses reads, seeks, whole reads and new readers, and only those |
| BodyStorage.ReadFullGivesAll | common/body_storage.go:244-249 | however many reads of the file it takes, a full read gives the rest of it |
| BodyStorage.BytesKeepsCursor | common/body_storage.go:225-257 | seeking to the start, reading all and seeking back gives the whole file and leaves the state as it was |
| BodyStorage.StepsAgree | common/body_storage.go:62-283 | from related states of a slice with cursors and a file with a descriptor table, one call gives the same answer and related states, unless it is one of the telling calls, and then the answers differ |
| BodyStorage.StoragesAgree | common/body_storage.go:62-283 | for every run of Read, Seek, Bytes, NewReader, Size, Close and replay calls, memory and disk answer alike iff no call reads an empty buffer at the end, asks for and could get more than 1 GiB at once, or uses a replay reader after its close |
| BodyStorage.NewStoragesAgree | common/body_storage.go:52-157 | the same for two new storages of one body |
| BodyStorage.ReplayIsIndependent | common/body_storage.go:98-108 | whatever else the run does, even closing the storage, one replay reader of either kind delivers a stretch of the body without gap or repetition |
| BodyStorage.ReplayIsComplete | common/body_storage.go:22-30 | a replay reader of either kind read until it reports the end has delivered the whole body from the start |
| StorageObjects.MemoryStorage.constructor | common/body_storage.go:52-60 | starts open at the first byte, counted once |
| StorageObjects.MemoryStorage.Read | common/body_storage.go:62-69 | one Read step of the model |
| StorageObjects.MemoryStorage.Seek | common/body_storage.go:71-78 | one Seek step of the model |
| StorageObjects.MemoryStorage.Bytes | common/body_storage.go:89-96 | one Bytes step of the model: the cursor does not move |
| StorageObjects.MemoryStorage.NewReader | common/body_storage.go:98-108 | one NewReader step of the model: a new cursor that is tracked from then on, or none once closed |
| StorageObjects.MemoryStorage.ReplayRead | common/body_storage.go:98-108 | reading from a handed-out reader is one ReplayRead step of the model |
| StorageObjects.MemoryStorage.ReplayClose | common/body_storage.go:104-107 | closing it is one ReplayClose step, which changes nothing |
| StorageObjects.MemoryStorage.Close | common/body_storage.go:80-87 | closed, and taken off the counters the first time only |
| StorageObjects.DiskStorage.constructor | common/body_storage.go:127-157 | starts open at the first byte, counted once |
| StorageObjects.DiskStorage.Read | common/body_storage.go:196-203 | one Read step of the model |
| StorageObjects.DiskStorage.Seek | common/body_storage.go:205-212 | one Seek step of the model |
| StorageObjects.OpenFile.ReadAll | common/body_storage.go:244-249 | the loop of reads gives what `ReadFull` specifies |
| StorageObjects.DiskStorage.Bytes | common/body_storage.go:225-257 | seeking to the start, reading all and seeking back is one Bytes step: it gives the whole body and the cursor is where it was |
| StorageObjects.DiskStorage.NewReader | common/body_storage.go:259-275 | one NewReader step of the model: a new descriptor that is tracked from then on, or none once closed |
| StorageObjects.DiskStorage.ReplayRead | common/body_storage.go:264-275 | reading from a handed-out descriptor is one ReplayRead step of the model |
| StorageObjects.DiskStorage.ReplayClose | common/body_storage.go:264-275 | closing it is one ReplayClose step: the storage and the other readers stay as they are |
| StorageObjects.DiskStorage.Close | common/body_storage.go:214-223 | closed, and taken off the counters the first time only |
| StorageAccounts.TakesInWithinLimit | common/body_storage.go:159-181 | a stream is refused iff longer than `maxBytes` and otherwise taken in whole, if and only if `maxBytes + 1` does not wrap or the stream is empty |
| StorageAccounts.CloseDoesNotClamp | common/disk_cache_config.go:115-122 | a close never takes more off a counter than is there, so it is never stored as zero |
| StorageAccounts.EventMeans | common/body_storage.go:286-348 | what each event of a run does to the list of storages: a creation adds one of the right size and kind exactly when it is not refused, and a close closes its own and no other |
| StorageAccounts.RunIsBalanced | common/body_storage.go:52-304 | after every run of creations, failures, fallbacks and repeated closes, the counters are the number and summed sizes of the open storages of each kind |
| StorageAccounts.RunStaysWithinLimit | common/disk_cache_config.go:170-177 | creations one after another never push disk use over the limit if no stream is longer than its content length |
| StorageAccounts.StreamKeepsLimit | common/body_storage.go:307-328 | a stream goes over the limit from some use within it iff it goes straight to disk and is longer than its content length |
| StorageObjects.CreateBodyStorage | common/body_storage.go:286-304 | the created storage holds exactly the bytes passed in, open and at its start, and is counted once; it is on disk iff the cache is on, the size reaches the threshold, it fits in what is left, and the disk does not fail |
| StorageObjects.CreateBodyStorageFromReader | common/body_storage.go:307-348 | for a limit below the greatest 64-bit integer, exactly when the stream is refused (it fails, is longer than the limit, or the disk fails for a promised length), with no trace in the counters; otherwise the storage holds the whole stream, and exactly when it is on disk; at that greatest limit it holds nothing |
| OggScan.LookOnce | common/audio.go:207-246 | one pass reads a header, which may come short, its signed granule position and the length of the page it announces |
| OggScan.Pass | common/audio.go:207-250 | one pass of the loop ends the scan or moves the cursor forward, and keeps the greatest granule position |
| OggScan.LooksForPattern | common/audio.go:207-240 | a page is seen iff "OggS" begins a whole header, and cut off iff fewer bytes follow than its segment count says |
| OggScan.LastGranule | common/audio.go:203-254 | on any bytes and through any reader the loop ends and returns the granule position of the scan that the rows below characterise |
| OggScan.ThroughReader | common/audio.go:207-217 | with short reads the loop finds the first of the pages that a full scan finds and no greater position; without them it finds them all |
| OggScan.SumLoop | common/audio.go:242-246 | the page size is the sum of the segment table |
| OggScan.LacingAddsUp | common/audio.go:242-246 | the segment table of a packet of n bytes sums to n |
| OggScan.DecodeEncode | common/audio.go:229-230 | little-endian reading undoes little-endian writing |
| OggScan.PageIsRecognised | common/audio.go:217-249 | a well-formed page is seen whole, with its granule position and its exact length, whatever follows |
| OggScan.ScanFindsEveryPage | common/audio.go:203-252 | on pages with garbage without the capture pattern before, between and after them, the scan lands on every page start and nowhere else, and returns the greatest granule position, at least 0 |
| OggScan.GreatestIsMaximum | common/audio.go:229-233 | that value is the maximum of 0 and the granule positions |
| OggScan.ScanOnlyGarbage | common/audio.go:219-227 | without the capture pattern no page is found and the result stays as it was |
| OggScan.ScanLandsOnPages | common/audio.go:203-252 | on any bytes the scan reports increasing places where a page header stands, and no granule position there exceeds the result |
| OggScan.ScanResultIsSeen | common/audio.go:229-233 | a result other than the initial 0 is the granule position of one of those places |
| TradeNumber.FormatIsCanonical | controller/d2s_alipay_pc.go:361-378 | the text form of a UUID is canonical and parses back |
| TradeNumber.OutTradeNoDomain | controller/d2s_alipay_pc.go:361-367 | exactly the canonical lower-case identifiers have a trade number, of the accepted form |
| TradeNumber.OrderIDDomain | controller/d2s_alipay_pc.go:369-378 | exactly the well-formed 35-character numbers have an order identifier, in canonical form |
| TradeNumber.DecodeEncode | controller/d2s_alipay_pc.go:361-378 | decoding undoes encoding |
| TradeNumber.EncodeDecode | controller/d2s_alipay_pc.go:361-378 | encoding undoes decoding |
| Amounts.DigitsValue | controller/d2s_alipay_operations.go:162 | printed digits have the value they print |
| Amounts.PrintersAgree | controller/d2s_alipay_pc.go:418 | the checkout and the refund printer write the same text for every amount |
| Amounts.DivIsExact | controller/d2s_alipay_pc.go:418 | dividing with rounding at a number of places is exact when the quotient has no more places than that |
| Amounts.DivIsNearest | controller/d2s_alipay_pc.go:418 | dividing whole numbers at any number of places rounds to the nearest, halves away from zero, whatever the sign |
| Amounts.CheckoutIsExact | controller/d2s_alipay_pc.go:418 | dividing hundredths by 100 at sixteen places and rounding to two loses nothing |
| Amounts.AmountMinorExactly | controller/d2s_alipay_pc.go:453-463 | a text is read as `minor` iff it is a positive decimal whose hundredfold is exactly `minor`, in 64 bits |
| Amounts.PrintedReadsBack | controller/d2s_alipay_pc.go:453-463 | for every positive 64-bit amount the text of either printer reads back as that amount |
| Amounts.WholeReads | controller/d2s_alipay_pc.go:453-463 | a text of digits is read as a hundred times its value |
| Amounts.ScientificReads | controller/d2s_alipay_pc.go:453-463 | digits with an exponent are read as a hundred times that multiple of a power of ten |
| CanonicalString.SortStrings | controller/d2s_alipay_pc.go:329 | the names in strictly ascending order, none lost or added |
| CanonicalString.FirstDifferenceDecides | controller/d2s_alipay_pc.go:329 | the order of names: at the first place where they part, one ends or has the smaller character |
| CanonicalString.SortedIsUnique | controller/d2s_alipay_pc.go:329 | a set of names has one ascending order |
| CanonicalString.CollectKeys | controller/d2s_alipay_pc.go:323-328 | exactly the names of the fields that count, each once, in whatever order the map is walked |
| CanonicalString.AlipayCanonicalString | controller/d2s_alipay_pc.go:322-335 | the result is the text of the fields that count in ascending order of names |
| CanonicalString.CanonicalText | controller/d2s_alipay_pc.go:322-335 | the text spelled out: the names in ascending order of every field except `sign`, on request `sign_type`, and blank ones, each with '=' and its value, joined by '&' |
| CanonicalString.TextIsUnique | controller/d2s_alipay_pc.go:322-335 | those fields fix the text, so map iteration order does not matter |
| CanonicalString.IgnoredFieldsDoNotMatter | controller/d2s_alipay_pc.go:324-328 | writing a signature or a blank field is the same as removing the field |
| CanonicalString.MoreFieldsDiffer | controller/d2s_alipay_pc.go:330-335 | one more counted field makes the text strictly longer |
| CanonicalString.TextFixesFields | controller/d2s_alipay_pc.go:322-335 | two sets of fields whose names hold no '=' or '&' and whose values hold no '&' have one text only if they are the same |
| CanonicalString.TextFixesExactly | controller/d2s_alipay_pc.go:322-335 | among all fields whatever, a text stands for one set of fields only iff it holds at most one '=' |
| CanonicalString.SeparatorCollides | controller/d2s_alipay_pc.go:322-335 | a value that holds '&' and a second field give one text |
| CanonicalString.FormsAgreeWithoutSignType | controller/d2s_alipay_pc.go:322-335 | the text with and the text without `sign_type` are equal iff that field is missing or blank |
| CanonicalString.ResponseFormsAgree | controller/d2s_alipay_pc.go:116-124 | the two forms compared before a response is verified are equal iff its key is not `sign_type` or its content is blank |
| Quota.SaturateKeepsOrder | common/quota_math.go:86-100 | saturation lands within the bounds and keeps order |
| Quota.StrictExactly | common/quota_math.go:86-107 | a strict conversion gives the truncated value within the bounds and fails on NaN and outside them, exactly where the checked one clamps |
| Quota.TruncatedIsNearest | common/quota_math.go:86-100 | the conversion goes towards zero, by less than one |
| Quota.RoundedIsNearest | common/quota_math.go:128-142 | rounding gives the nearest integer, halves away from zero |
| Quota.QuotaRoundKeepsOrder | common/quota_math.go:133-142 | rounded and saturated quota keeps order and stays within 32 bits |
| Quota.SettleIsMonotone | controller/channel-test.go:548-559 | for every order-keeping float rounding and non-negative ratios, more tokens never cost less, and with a positive model ratio every test costs between 1 and MaxQuota |
| Quota.SettleIs | controller/channel-test.go:548-559 | its value with exact arithmetic: completion tokens times their ratio, rounded, plus the prompt tokens, times the model ratio, rounded, each step kept within the quotas, and at least 1 unless the model ratio is 0 |
| Quota.WalletIsExact | common/quota_math.go:170-175 | the wallet conversion returns the rounded value itself within ±(2^53 - 1) and fails on everything else |

## Left out

- The licensing, payment, lease and session rules in the `model` and `service` packages, except for how a channel row is read and written: the handlers here only call them.
- HTTP handlers, request decoding, JSON, translations, audit texts, option listings: no rule beyond the calls they make.
- SMTP, Alipay HTTP calls, upstream model fetches and other network clients: what they return is a parameter.
- Signatures, digests and random identifiers: digests are a parameter, identifiers of previews and challenges are given.
- Redis branches of the captcha and of the verification codes: only the in-memory branches are modelled.
- SQL: tables are maps or sets, a transaction is one read of a snapshot and one compare-and-set commit; the selectors of a batch other than the address range are a given result.
- Regular expressions of ignore entries and the geometry of a click: both are parameters.
- The append merge of `UpdateChannel` and the validation of its keys: it would add easy members.
- `selectChannelsForAutomaticTest`, the notification texts and the counters of the scan tasks: single-branch filters and sums.
- Audio formats other than Opus in Ogg, and the division by 48000: calls into decoders, and one float operation.
- Tiered settlement and settlement by price: the first is decided in another package, the second is one saturated product.
- UpstreamUpdate.DetectMeans: the minimum interval between checks is modelled, errors of the fetch only as "nothing fetched".
- MultiKey.RunExactly: the recorded number of keys is taken to be the one that `Update` computes for the stored text.
- KeysetScan.ScanAll: channel identifiers are taken to be positive, as the database assigns them, and the batch size as positive.
- RateLimiter.InMemoryRateLimiter.Request: a negative limit, for which the original panics, is excluded.
- WorkerPool.Progress: each test of a channel is taken to return, and the normalized concurrency to be at least 1.
- BodyStorage.StoragesAgree: seek origins other than start, current and end, positions beyond the filesystem's own limit, reads of a file that return less than they could, and I/O errors after creation are not modelled, nor writes by callers to a slice that `Bytes` returned.
- StorageAccounts.RunStaysWithinLimit: sequential creations only; the check and the count are not one atomic step in the original.
- Amounts.AmountMinorExactly: decimal parsing follows the library's grammar of sign, digits, point and exponent; that a huge exponent asks for a number too large for memory is not modelled.
- Quota.SettleIsMonotone: ratios are finite and non-negative.
- CanonicalString.SortStrings: names are compared by code point, which is the byte order of UTF-8.
