# Modern EQ Chat: a verified model of the relay

Modern EQ Chat links the chat of several game servers. An agent beside each game server reports
what players say to a hub; the hub stamps the sender's identity, sanitizes the line, drops
duplicates and hands it to every other agent, which writes it into its own game. The game then
echoes the written line back on the connection the agent reads from, so every relayed line returns
to an agent looking like new chat.

The project models that protocol and the small stateful structures its guarantees rest on, and
proves what they promise over every run:

- `RelaySystem`, `RelayContent`, `RelayDelivery`, `RelayLeaks`, `Agent`, `EchoCache`, `TelnetText`,
  `OocTrigger`: players, games that echo or fail to, agents, links and the steps of the hub as one
  interleaved machine. What travels is what was said, and no line is reported, routed or printed
  more often than somebody said it, unless its echo comes back changed.
- `Hub`, `HubRuns`, `Router`, `SeenCache`: sessions, fan-out and the loop guards, with readers,
  reconnects and replaced sessions interleaved.
- `SendQueue`: the bounded drop-oldest queue of sessions and agents under any interleaving.
- `Guard`, `GuardRuns`, `GuardFailures`, `Limiter`, `Window`: connection rate, escalating bans and
  message rate over runs on a clock that never goes backwards.
- `SharedFile`, `Roster`, `RosterRuns`, `Enroll`, `EnrollCode`, `EnrollRuns`, `EnrollFailures`,
  `Enrollment`: the two credential stores as several process handles on one file, with writes that
  fail, and the exchange of a code for a token.
- `Bytes`, `Utf8`, `Unicode`, `Sanitize`, `SanitizeProofs`: the text sanitizer on byte strings, valid or not.
- `ItemLinks`, `ItemLinksFormat`, `ItemLinksEnd`, `ItemLinksLegacy`: the recursive rewriting of item
  links, what a link becomes and exactly when the rewriting ends.
- `Migrate`, `MigrateProofs`: the startup migration of file names over a file system.

What the source updates in place is a class whose methods are proved against specification
functions; runs are sequences of steps over those functions. Times are integer nanoseconds, every
clock reading is a parameter, and a step that reads the clock twice takes two readings. Go maps are
iterated in an arbitrary order. Random identifiers and tokens are parameters assumed fresh where a
theorem says so; hashes, JSON and TOML are ideal. `Wrappers` and `Time` hold what the modules share.

`dafny verify dfyconfig.toml` checks the whole project.

## Where the code and its documentation differ

- A game's echo is matched by name and message, which are said to survive the round trip unchanged
  (agent/echo.go:19-22). They need not. The telnet reader replaces "&PCT;" by "%" before the agent
  sees the line (telnet/telnet_msg.go:81-82), and every percent sign typed on Discord goes out as
  "&PCT;" (discord/discord.go:279-280). And the trigger that setup installs, `(\w+) says ooc, '(.*)'`
  (setup/hub.go:407), captures only the last word of a name, while names keep dashes, dots and
  apostrophes (sanitize/sanitize.go:74-75) and may be Discord nicknames (discord/discord_msg.go:102).
  Such a line comes back under another key and is reported as if a player had said it
  (`RelayLeaks.PercentIsMultiplied`, `RelayLeaks.ApostropheIsMultiplied`), or is not heard at all.
  `OocTrigger.EchoIsRecognizedExactly` and `RelayLeaks.EchoLeaksExactly` say that an echo is
  recognized exactly when the name is one word and the message holds no "&PCT;".
- The echo cache's comment relies on the hub's duplicate filter and hop counter as a second line of
  defense (agent/echo.go:82-85). A re-published echo has a new identifier and hop 0
  (relay/event.go:149-157), so neither sees it; the echo cache alone prevents amplification, and
  `EchoCache.TwinsLeak` shows what passes when one line is injected twice at once.
- Repeat offences are documented to double the ban up to a day (guard/guard.go:203-204). The sweep
  forgets an address's offences twenty minutes after its last ban was set, so a ban that lasts
  longer than that and is waited out starts over (`GuardFailures.WaitingOutForgetsOffences`, for
  every threshold); `GuardFailures.EscalationIsRememberedExactly` says exactly when it does not.
- One sanitizing pass is not a fixpoint when truncation leaves a trailing space
  (`SanitizeProofs.OnePassFallsShortExactly`); two passes always are.
- At the very instant a ban ends, a connection is let in while the ban is still listed
  (`GuardRuns.BanReadingsAgreeExactly`).
- Removing or disabling an agent is not rolled back when the file cannot be written
  (`RosterRuns.FailedWriteStaysCoherentExactly`).
- An item URL that itself holds an item link makes the rewriting endless, in the legacy style when
  rewriting the URL meets a known item (`ItemLinksEnd.EndsExactly`,
  `ItemLinksLegacy.EndsUnlessUrlShowsItem`, `ItemLinksEnd.LegacyLinkNeverEnds`).
- Repeated guessing is said to burn the outstanding codes (hub/enroll.go:209-210). The write that
  follows a miss may fail unnoticed (hub/enroll.go:215); the miss then counts for its own process
  only (`EnrollFailures.UnsavedMissesCountExactly`).
- A configuration kept under an old data name is swept away from its own path, and a second
  migration may then put another one there (`MigrateProofs.SecondRunDoesNothing`,
  `MigrateProofs.ConfigUnderAnOldNameIsLost`).

## Model

| member | source | states |
|---|---|---|
| RelaySystem.NoAmplification | agent/echo.go:41-89 | over every run, whatever queues, links and telnet writes lose and however the hub's publishes interleave, as long as echoes come in time or not at all and every injected line has a single word for a name, holds no "&PCT;", is not still owed and meets no flooded cache: the hub routes no line more often than it was said, no game prints a line of another server more often than that, and none prints its own |
| RelaySystem.ReportedIsWhatWasSaid | agent/agent.go:155-179 | when moreover every injection is echoed, agents report per server and line exactly as many copies as players said once no echo of it is owed, and at most one fewer before |
| RelayContent.WhatTravelsIsWhatWasSaid | agent/agent.go:155-179 | over every run, with no condition on echoes: a report holds the line, channel and server it stands for, an event on the hub and a frame to an agent that line as the hub sanitized it, and a line printed in a game is it sanitized once more, said on another server, on a channel open there |
| RelayContent.RunTells | hub/hub.go:504-558 | every step of players, games, agents, links and hub keeps that tie between what is counted and what travels |
| RelayDelivery.LineIsDelivered | agent/agent.go:569-619 | a reported line on a channel that links servers is printed on the other server, through every step in between |
| RelaySystem.RunKeepsInv | agent/agent.go:569-619 | every step of players, games, agents, links and hub keeps the books between what was said, reported, queued, routed and printed |
| RelaySystem.SpeakingBalances | agent/agent.go:155-179 | a player's line is reported, or takes over the suppression held for the same line; only an entry whose echo went missing can swallow it |
| RelaySystem.EchoBalances | agent/echo.go:58-70 | an echo uses up its own suppression, or is reported exactly when a player's line used it |
| RelaySystem.OwedIsReportedExactly | agent/agent.go:155-165 | an owed line is read from telnet as it was injected, and is reported exactly when its suppression is gone |
| RelaySystem.LoseEchoKeepsInv | agent/agent.go:611-616 | an injection that is never echoed, its telnet write having failed, leaves nothing behind that could multiply a line |
| RelaySystem.InjectBorrowsNothing | agent/agent.go:602-604 | injecting a line whose echo is not owed changes no other line's balance |
| RelaySystem.InjectStaysGuarded | agent/echo.go:42-50 | after an injection every owed line's suppression that is still held carries its deadline |
| RelaySystem.RememberingKeepsOwed | agent/echo.go:74-89 | remembering sets its own entry and, while the cache is not flooded, drops none that an owed echo needs |
| RelaySystem.FewOwedNeverFlood | agent/echo.go:83-88 | with every injection echoed, the cache is not dropped while at most 4096 echoes are owed |
| RelaySystem.ArriveKeepsInv | hub/hub.go:471-478 | a report that reaches the hub is taken off the agent's queue and accounted for on the hub |
| RelaySystem.RouteKeepsInv | hub/hub.go:509-525 | routing uses up one report and plans at most one copy per server, whatever listing of sessions it was given |
| RelaySystem.SendKeepsInv | hub/hub.go:549-555 | each send turns one planned copy into one queued or lost |
| RelaySystem.ReceivedSettles | hub/hub.go:505-507 | what the hub sends keeps its origin and is settled by the receiving agent's own sanitizing pass |
| RelayLeaks.EchoLeaksExactly | telnet/telnet_msg.go:80-116 | the echo of an injected line that nobody else says is reported as chat if and only if something is heard of it and its name is not one word or it holds "&PCT;"; a name with a word at its end is always heard |
| RelayLeaks.ChangedIsMultiplied | agent/agent.go:155-179 | any line from Discord that comes back changed makes an agent report a line nobody said, over a whole run that keeps every other condition |
| RelayLeaks.PercentIsMultiplied | discord/discord.go:279-280 | a whole run in which a percent sign typed on Discord makes an agent report a line nobody said |
| RelayLeaks.ApostropheIsMultiplied | sanitize/sanitize.go:74-75 | a whole run in which "O'Brien" on Discord makes an agent report a line of "Brien" |
| TelnetText.UnescapingShortensExactly | telnet/telnet_msg.go:82 | the replacement changes a text if and only if it holds "&PCT;", and then shortens it |
| TelnetText.SanitizingShortens | sanitize/sanitize.go:31-57 | a sanitized line is never longer than what it was made from |
| OocTrigger.HeardExactly | telnet/telnet_msg.go:80-116 | what comes back of an injected line is the longest word at the end of its name with its message as read; without one, only a line that the message itself quotes, if any |
| OocTrigger.PromptIsSkipped | telnet/telnet_msg.go:93 | a prompt without words in front of a line changes nothing of what is read |
| OocTrigger.SettledIsNotRewritten | telnet/telnet_msg.go:80-82 | link rewriting leaves the echo of an injected line alone |
| OocTrigger.EchoIsRecognizedExactly | agent/echo.go:19-22 | the key of an injected line is the key of its echo, as captured and published, if and only if the name is one word and the message holds no "&PCT;" |
| OocTrigger.EchoKeySurvivesTheRoundTrip | agent/agent.go:582-604 | after the hub's and the agent's passes, the remembered key is the key of the echo as captured and published again, under exactly that condition on what was injected |
| OocTrigger.PercentComesBackDifferent | telnet/telnet_msg.go:82 | "a&PCT;" is injected as it is and comes back as "a%" |
| OocTrigger.ApostropheComesBackDifferent | setup/hub.go:407 | "O'Brien" is injected as it is and comes back as "Brien" |
| Agent.Agent.constructor | agent/agent.go:69-79 | an agent starts with an empty echo cache of fifteen seconds and an empty queue of 512 |
| Agent.Agent.Publish | agent/agent.go:155-179 | a line is reported exactly when it is neither blank nor an echo; its suppression is used up; a full queue keeps the newest reports and counts what it sheds |
| Agent.Agent.Inject | agent/agent.go:569-619 | what is written to the game is remembered under the key of the sanitized line, and nothing else is: own lines, closed channels, blanks, failed templates and unsafe commands are dropped |
| Agent.InjectedExactly | agent/agent.go:570-600 | an event is injected if and only if it comes from another server, the first channel of its name is enabled, name and message leave something and the command is safe; what is injected is the sanitized line |
| Agent.OpenExactly | agent/agent.go:577-581 | the first channel of a name decides whether it is open |
| Agent.ReportsExactly | agent/agent.go:155-165 | a line is reported if and only if sanitizing leaves a name and a message and no unexpired entry has their key |
| EchoCache.Cache.constructor | agent/echo.go:30-39 | a new cache is empty, with a default time to live and a limit of 4096 |
| EchoCache.Cache.Prune | agent/echo.go:74-89 | in whatever order entries are visited, exactly the unexpired ones stay, or none when they exceed the limit |
| EchoCache.Cache.Remember | agent/echo.go:42-50 | an injection sets its key's deadline one time to live ahead, after pruning |
| EchoCache.Cache.IsEcho | agent/echo.go:58-70 | a lookup consumes the entry and says whether it was strictly before its deadline |
| EchoCache.SuppressionsNeverExceedInjections | agent/echo.go:52-57 | over any calls at any times, suppressions of a key and the entry still held never outnumber its injections |
| EchoCache.SuppressedExactly | agent/echo.go:58-70 | a lookup suppresses if and only if an injection of the key is waiting, untouched and unflooded, and was made less than one time to live ago |
| EchoCache.HeldExactly | agent/echo.go:41-89 | the cache holds exactly the waiting injections with their deadlines, but for expired ones already pruned |
| EchoCache.LookedUpTimes | agent/echo.go:55-57 | looking a held key up any number of times suppresses once |
| EchoCache.TwinsLeak | agent/echo.go:42-50 | n identical injections outstanding together yield one suppression for n echoes |
| SeenCache.Cache.constructor | hub/router.go:171-178 | a new filter has two empty generations and rotates one window ahead |
| SeenCache.Cache.SeenBefore | hub/router.go:181-203 | answers whether either generation holds the identifier after a due rotation, and records it when neither does |
| SeenCache.CallRefines | hub/router.go:181-203 | one call keeps the filter equal to a timestamped history cut at the older generation, and answers as that history does |
| SeenCache.RunRefines | hub/router.go:156-162 | any run of calls refines the timestamped history |
| SeenCache.FreshAnswersAreAWindowApart | hub/router.go:156-162 | two "not seen" answers for one identifier are always more than one window apart |
| SeenCache.SeenMeansRecorded | hub/router.go:180-203 | a "seen" answer follows an earlier recording of the same identifier |
| SeenCache.GenerationsSpanOneWindow | hub/router.go:156-162 | identifiers held by one generation were recorded within one window of each other |
| SeenCache.RecordedByACall | hub/router.go:181-203 | every recorded time is the time of a call that answered "not seen" |
| Router.Routes.constructor | hub/router.go:41-47 | a new router has the configured channels and a thirty second filter |
| Router.Routes.SetChannels | hub/router.go:50-56 | replaces the channel table and nothing else |
| Router.Routes.FindByName | hub/router.go:70-80 | finds the first channel of that name, if any |
| Router.Routes.Route | hub/router.go:86-140 | the plan or refusal in the router's order of checks; only a valid event touches the filter |
| Router.OthersExactly | hub/router.go:128-137 | targets are exactly the connected servers but the origin, each as often as it is connected |
| Router.AcceptedMeansFirstHop | hub/router.go:94-99 | only a valid event with hop 0 is accepted, and its origin is never a target |
| Router.AcceptedExactly | hub/router.go:86-126 | an event is accepted if and only if it keeps the bounds, is not a duplicate, has hop 0 and the first channel of its name is enabled and, where Discord has to show it, renders |
| Router.RefusedExactly | hub/router.go:86-126 | each refusal, for the first reason there is; only an event within the bounds reaches the filter and is then recorded |
| Router.TargetsExactly | hub/router.go:128-137 | a server is a target if and only if it is connected, not the origin, and the channel links servers or the event comes from Discord |
| Router.ShownExactly | hub/router.go:110-126 | an event is shown in Discord if and only if the channel has a Discord channel, the event is not from there and its text is not empty, and then in that channel, as rendered |
| Hub.Hub.AddSession | hub/hub.go:434-445 | one session per key: the newer replaces the older, which is closed |
| Hub.Hub.RemoveSession | hub/hub.go:447-455 | removes a session only while it is the current one for its key |
| Hub.Hub.ConnectedKeys | hub/hub.go:585-595 | lists each connected key once |
| Hub.Hub.OnEvent | hub/hub.go:471-478 | an agent's event is routed under its session's identity, never back to that session's queue |
| Hub.Hub.Receive | hub/hub.go:505-507 | sanitizes name and message on arrival and leaves the rest |
| Hub.Hub.Plan | hub/hub.go:509-525 | the router's decision is taken on the connected keys, and plans each target once |
| Hub.Hub.Publish | hub/hub.go:504-558 | the sanitized event, one hop on, reaches exactly the planned sessions, for a plan over the connected keys |
| Hub.Hub.FanOut | hub/hub.go:549-555 | each addressed open session queues the frame once and no other queue changes |
| Hub.PlannedOnce | hub/router.go:128-137 | no target is planned twice |
| HubRuns.SessionsAreAuthenticated | hub/hub.go:434-455 | in every reachable hub state the session stored under a key authenticated as that key |
| HubRuns.NeverBackToItsOrigin | hub/hub.go:504-558 | no frame from an event of a session of k is ever queued to a session of k, even when sessions are replaced between listing and sending |
| HubRuns.EmittedHopIsOne | hub/hub.go:537-541 | every emitted frame has hop 1 and comes from an accepted event with hop 0 |
| HubRuns.ReturnedCopyIsRefused | hub/router.go:91-99 | a returned copy of an emitted frame is refused at any later time by any state of the filter |
| HubRuns.LateRemovalKeepsTheNewer | hub/hub.go:447-455 | removing a replaced session leaves the newer one, removing the current one takes only it |
| HubRuns.AcceptedReachesEveryOther | hub/hub.go:504-558 | an accepted event on a channel that links servers, or from Discord, is handed one hop on to every listed key but its origin that has a session at its turn |
| HubRuns.RunKeepsInv | hub/hub.go:434-558 | every interleaving of authentication, adding, removing, listing, routing and sending keeps the hub's invariant |
| SendQueue.Outbound.TryPut | hub/session.go:98-102 | one select that queues only when there is room |
| SendQueue.Outbound.TryTake | hub/session.go:104-109 | one select that takes the oldest only when there is one |
| SendQueue.Outbound.Enqueue | agent/agent.go:184-202 | uninterrupted, the newest frames stay and each one shed is counted |
| SendQueue.Outbound.Send | hub/session.go:91-116 | a closed session changes nothing; an open one keeps the newest frames and counts what it sheds |
| SendQueue.Outbound.Close | hub/session.go:119-124 | closing is final and may be repeated |
| SendQueue.QueuedIsNewestUndelivered | hub/session.go:88-116 | over any uninterleaved history the queue is the newest undelivered frames up to capacity |
| SendQueue.EveryFrameInExactlyOnePlace | hub/session.go:91-116 | under any interleaving every offered frame is exactly one of taken, counted as dropped, queued or held by a send, and the queue stays bounded |
| SendQueue.TakenKeepsSendOrder | hub/session.go:129-156 | each sender's delivered frames keep their send order |
| SendQueue.ClosedOffersNothing | hub/session.go:92-96 | once closed, no send that begins offers anything |
| SendQueue.UninterruptedSend | hub/session.go:91-116 | the interleaved steps of one undisturbed send are the sequential send |
| SendQueue.RunKeepsInv | hub/session.go:91-156 | every atomic step of senders, writer and closing keeps the queue's invariant |
| Limiter.TokenBucket.constructor | guard/limiter.go:26-36 | starts full, with a burst of at least one |
| Limiter.TokenBucket.Allow | guard/limiter.go:39-62 | refills by elapsed time up to the burst, then takes a token or counts a refusal; a rate of zero or less always allows |
| Limiter.TokensStayInRange | guard/limiter.go:47-60 | tokens never leave 0..burst |
| Limiter.AdmittedBetween | guard/limiter.go:8-12 | anywhere inside a run, calls admitted from s to t number at most burst + rate * (t - s) |
| Limiter.AdmittedExactly | guard/limiter.go:39-62 | a call is admitted if and only if for every call before it, what was admitted from that one on, with this one, is within burst + rate * time |
| Limiter.EarlyAndSpacedAreAdmitted | guard/limiter.go:8-12 | a new limiter admits its first burst calls, and any call at least one token's time after the one before |
| Limiter.NoRateAdmitsAll | guard/limiter.go:40-42 | without a positive rate nothing is refused |
| Limiter.DroppedCountsRefusals | guard/limiter.go:56-59 | every refusal is counted |
| Limiter.AdmittedIsPaidFor | guard/limiter.go:39-62 | what is admitted never exceeds the tokens held and those earned meanwhile |
| Limiter.RefusedCallLeavesNoTrace | guard/limiter.go:56-59 | a refused call changes no later answer |
| Limiter.DeletingARefusedCall | guard/limiter.go:56-59 | deleting a refused call from a run leaves every other answer as it was |
| Window.RollingWindow.Trim | guard/limiter.go:117-129 | keeps what is later than one period ago |
| Window.RollingWindow.Allow | guard/limiter.go:89-98 | records an event exactly when fewer than the limit are recent |
| Window.RollingWindow.RetryAfter | guard/limiter.go:101-110 | time until the oldest event ages out, never negative |
| Window.RollingWindow.IsIdle | guard/limiter.go:112-115 | whether nothing recent is left |
| Window.TrimmedKeepsTheLater | guard/limiter.go:117-129 | trimming time-ordered events keeps exactly the later ones |
| Window.AllowTracks | guard/limiter.go:74-98 | the trimmed events decide like the full log of admissions, in which no period holds more than the limit |
| Window.TracksLater | guard/limiter.go:112-129 | trimming at any later time loses nothing that matters |
| Window.TrimmedCounts | guard/limiter.go:117-129 | trimming leaves as many events as are later than the cutoff |
| Window.WaitingExactly | guard/limiter.go:100-110 | after a refusal, with nothing admitted meanwhile, there is room again from the end of the reported time on and not before |
| Guard.BanDuration | guard/guard.go:203-214 | the doubling loop yields min(base * 2^(k-1), 24h), with a default base, for any 64-bit base and without overflow |
| Guard.BanLengths | guard/guard.go:203-214 | the first ban has the configured length, fifteen minutes by default, and each further one twice the one before, up to a day |
| Guard.Controls.constructor | guard/guard.go:68-90 | starts with no connections, failures or bans |
| Guard.Controls.Sweep | guard/guard.go:307-329 | at most once a minute, and in any order, drops exactly the ended bans, outdated failures and idle windows |
| Guard.Controls.AllowConnection | guard/guard.go:127-166 | the verdict in the guard's order of checks, with its retry time, and which attempts are counted |
| Guard.Controls.RecordAuthFailure | guard/guard.go:174-220 | counts the failure in a current record and bans at the threshold for the record's next length |
| Guard.Controls.RecordAuthSuccess | guard/guard.go:223-230 | forgets the address's failures and offences, not its ban |
| Guard.Controls.IsBanned | guard/guard.go:233-244 | reports a ban up to and including its end |
| Guard.Controls.Unban | guard/guard.go:264-270 | lifts the ban and forgets the failures |
| GuardRuns.VerdictExactly | guard/guard.go:127-166 | in any run, every verdict with the first reason there is: not allowed; a ban in force, with the rest of it; a positive agent limit reached; as many admissions in the last minute as the limit; otherwise admitted |
| GuardRuns.PassesRateExactly | guard/guard.go:151-163 | in any run, an attempt passes the rate check if and only if fewer than the limit passed from its address in the last minute, sweeps included |
| GuardRuns.RateLimitHolds | guard/guard.go:151-163 | no span shorter than a minute holds more than the limit from one address |
| GuardRuns.BanRefusesUntilItsEnd | guard/guard.go:139-144 | a ban refuses connections until its end and not from then on, whatever sweeps and successes happen, unless lifted or replaced by a newer one |
| GuardRuns.LiftedBanIsGone | guard/guard.go:264-270 | once lifted a ban is neither listed nor refuses anybody |
| GuardRuns.SweepKeepsBlocks | guard/guard.go:307-329 | sweeping changes no reading of a ban |
| GuardRuns.SweepLeavesNothingOld | guard/guard.go:307-329 | a sweep leaves no ended ban, no outdated record and no window without recent events |
| GuardRuns.BanReadingsAgreeExactly | guard/guard.go:239-243 | listing and refusing a ban differ exactly at its end |
| GuardRuns.WaitingAfterRateRefusal | guard/guard.go:157-162 | coming back with nothing tried in between is admitted from the end of the reported wait on and refused for the rate before, unless the agent limit is reached |
| GuardRuns.WaitingOutTheHeader | hub/hub.go:271-274 | the same for the whole seconds of the Retry-After header |
| GuardRuns.WaitingOutABan | guard/guard.go:139-144 | after the reported wait an address is no longer refused for its ban |
| GuardFailures.EnoughFailuresForceABan | guard/guard.go:174-220 | 2N-1 failures inside ten minutes, with no success or Unban, force at least one ban |
| GuardFailures.BanNeedsFailures | guard/guard.go:183-201 | a ban is only set by the N-th of N failures of its address within ten minutes with no success between, sweeps included |
| GuardFailures.RecordSurvivesExactly | guard/guard.go:319-323 | an untouched failure record survives exactly until a sweep more than twenty minutes after it began |
| GuardFailures.OffencesLastUntilForgotten | guard/guard.go:183-201 | whatever failures are counted in between, offences last until a sweep more than twenty minutes after the record last began, and are gone from then on |
| GuardFailures.EscalationIsRememberedExactly | guard/guard.go:199-219 | after a k-th ban the next one, for any threshold, has the (k+1)-th length if the record was not forgotten in between and the first otherwise |
| GuardFailures.WaitingOutForgetsOffences | guard/guard.go:203-204 | for every threshold, a run in which waiting out the second ban makes the third as short as the first |
| SharedFile.Disk.Write | hub/roster.go:345-386 | a write replaces the whole file, or leaves it when it fails |
| SharedFile.RefreshSeesTheFile | hub/roster.go:112-123 | refreshing by modification time shows a handle whatever was last written, whoever wrote it |
| Roster.AgentRoster.constructor | hub/roster.go:50-73 | opens the file, or establishes an empty one |
| Roster.AgentRoster.Refresh | hub/roster.go:112-123 | re-reads the file when its modification time is not the one last seen |
| Roster.AgentRoster.Save | hub/roster.go:345-386 | writes the entries and remembers the write's own modification time |
| Roster.AgentRoster.AddAgent | hub/roster.go:128-169 | adds a new, enabled agent or says why not, and undoes a failed write |
| Roster.AgentRoster.RotateToken | hub/roster.go:172-201 | replaces the token of a known agent, and undoes a failed write |
| Roster.AgentRoster.RemoveAgent | hub/roster.go:204-217 | removes a known agent; memory keeps the removal when the write fails |
| Roster.AgentRoster.Enable | hub/roster.go:220-234 | toggles a known agent; memory keeps the change when the write fails |
| Roster.AgentRoster.RenameAgent | hub/roster.go:237-257 | changes a known agent's display name, and undoes a failed write |
| Roster.AgentRoster.Seen | hub/roster.go:328-341 | notes a connection of a known agent |
| Roster.AgentRoster.Authenticate | hub/roster.go:267-297 | whatever is claimed and in whatever order entries are tried, the result is one the token's holders allow, and the claimed entry decides when the token is its own |
| RosterRuns.HandlesActAsOneMap | hub/roster.go:107-123 | in every run, an operation on any handle answers and acts like the same operation on one shared map |
| RosterRuns.FailedWriteStaysCoherentExactly | hub/roster.go:204-234 | after a failed write memory agrees with the file if and only if the operation rolls back or had nothing to change |
| RosterRuns.UnsavedRemovalDiverges | hub/roster.go:215-216 | a removal that could not be saved is denied by memory and kept by the file |
| RosterRuns.MapTellsTheHistory | hub/roster.go:128-234 | presence, token, enabled flag, display name, last connection and time of adding are those of the latest operations on the key |
| RosterRuns.RepliesExactly | hub/roster.go:128-257 | an addition yields its token unless the key is empty, reserved or taken, every other operation succeeds for the keys that are present |
| RosterRuns.TokenAcceptedExactly | hub/roster.go:259-297 | with fresh tokens, a token logs in as k if and only if it is the latest issued for k, k is present and k is enabled, whatever is claimed |
| RosterRuns.LoginThroughAnyHandle | hub/roster.go:267-297 | the same through any handle of any run |
| EnrollCode.NormalizeEnrollCode | relay/enroll.go:60-81 | drops formatting and repairs mistyped characters of the trimmed, upper-cased text |
| EnrollCode.FormatEnrollCode | relay/enroll.go:44-55 | shows a code in groups of four |
| EnrollCode.SpellingIsFree | relay/enroll.go:57-59 | text that stands for nothing may be inserted anywhere |
| EnrollCode.LookAlikesAreFree | relay/enroll.go:57-79 | upper or lower case and look-alike characters make no difference |
| EnrollCode.SameCodeExactly | relay/enroll.go:57-81 | texts of letters and digits stand for one code if and only if they agree at every place up to case and the look-alikes 0/O, 1/I/L and U/V |
| EnrollCode.NormalizedIsStable | relay/enroll.go:43-91 | normalizing twice is once, and a displayed code normalizes to what it shows |
| EnrollCode.NormalizedIsInAlphabet | relay/enroll.go:75-77 | a normalized code holds characters of the alphabet only |
| EnrollCode.GroupedExactly | relay/enroll.go:43-55 | a displayed code has its characters in order and a dash before every fourth but the first |
| Enroll.EnrollStore.constructor | hub/enroll.go:66-81 | opens the store on what the file holds |
| Enroll.EnrollStore.Prune | hub/enroll.go:249-255 | keeps exactly the codes neither past their expiry nor out of attempts |
| Enroll.EnrollStore.CreateCode | hub/enroll.go:128-173 | issues a code for a valid server key with its expiry, or says why not |
| Enroll.EnrollStore.Find | hub/enroll.go:191-194 | in any order, finds an entry the code matches, or none when none does |
| Enroll.EnrollStore.RedeemCode | hub/enroll.go:179-218 | a match is consumed once saved, a lapsed one dropped, and a miss charged to every code |
| Enroll.EnrollStore.ListPending | hub/enroll.go:221-234 | lists the live codes |
| Enroll.EnrollStore.RevokeCode | hub/enroll.go:237-247 | drops one pending code |
| EnrollRuns.RedeemedMeansUsable | hub/enroll.go:179-218 | a success means an earlier step created the presented code under that entry, for that server and display name; it is not spent, its time to live is not over and it was missed fewer than five times |
| EnrollRuns.IssuedByCreate | hub/enroll.go:128-173 | what is issued holds the server, display name and time to live of the step that created it |
| EnrollRuns.CreateIssues | hub/enroll.go:128-173 | a code that was created stays issued as it was created |
| EnrollRuns.PendingIsUsable | hub/enroll.go:221-234 | listing through any handle shows exactly the codes that can still be used |
| EnrollRuns.MalformedChargesNothing | hub/enroll.go:180-183 | a text of another length than twelve charges and saves nothing |
| EnrollRuns.SavedCodesAreLive | hub/enroll.go:249-255 | creating and redeeming save no code that is past its last second or out of attempts |
| EnrollFailures.RedeemedAtMostOnce | hub/enroll.go:177-178 | over any run and any handles, whatever could not be saved, a code succeeds at most once |
| EnrollFailures.RedeemedMeansUnspent | hub/enroll.go:179-218 | with failing writes too, a success means an earlier step created the code under that entry for that server, it is not spent, its time to live is not over and it has fewer than five saved misses |
| EnrollFailures.UnsavedMissesCountExactly | hub/enroll.go:209-217 | after misses that could not be saved, the code redeems if and only if it is presented to another handle or was missed fewer than five times in all |
| EnrollFailures.RunKeepsInvWithFailures | hub/enroll.go:128-255 | in every run, saved or not, the file holds only issued codes charged with every saved miss, none spent but lapsed ones, and no handle in step with it holds more |
| EnrollRuns.UsableCodeRedeems | hub/enroll.go:179-207 | until then every spelling that normalizes to it, or its display form, redeems through any handle to the server and display name its creating step gave |
| EnrollRuns.PrunedHandlesAgree | hub/enroll.go:114-125 | after refreshing and pruning, all handles hold the same codes |
| EnrollRuns.CodesAreDistinct | hub/enroll.go:143-166 | no two entries were issued for one code |
| EnrollRuns.RunKeepsInv | hub/enroll.go:128-255 | in every run the file holds only issued unspent codes with their misses, and every usable one |
| Enrollment.Desk.HandleEnroll | hub/hub.go:374-432 | a code that is not accepted counts as a failed credential and leaves the roster alone; an accepted one adds its server, and takes it back when the token cannot be delivered |
| Enrollment.RepliesExactly | hub/hub.go:403-431 | the reply to a redeemed code: its server key must be possible and new, the roster written and the token delivered |
| Enrollment.DeliveredTokenLogsIn | hub/hub.go:403-431 | a delivered token logs in as the code's server, and no other token changes meaning |
| Enrollment.OnlyDeliveryStays | hub/hub.go:419-429 | only a delivered enrollment stays in the roster; otherwise memory is as before, and the file too unless the rollback's write failed |
| Enrollment.RedeemedCodeIsGone | hub/hub.go:388-401 | a redeemed code matches nothing afterwards, whether or not its token was delivered |
| Utf8.DecodeAllOfEncodeAll | sanitize/sanitize.go:35-53 | decoding undoes encoding, as section 3 of RFC 3629 defines it |
| Utf8.EncodingKeepsOrder | sanitize/sanitize.go:35-53 | encodings are in the order of their code points, as section 1 of RFC 3629 says |
| Utf8.DecodeAllAroundAscii | sanitize/sanitize.go:35-53 | an ASCII byte is decoded as itself wherever it stands, valid surroundings or not |
| Sanitize.TelnetLine | sanitize/sanitize.go:31-57 | the byte loop computes filtering, collapsing, trimming and truncating of the decoded text |
| Sanitize.Name | sanitize/sanitize.go:64-82 | the byte loop keeps the name characters and truncates |
| Sanitize.CollapseSpaces | sanitize/sanitize.go:118-137 | drops every space that follows a space |
| Sanitize.Truncate | sanitize/sanitize.go:140-148 | backs up to the start of a rune |
| Sanitize.TruncationKeepsWholeRunes | sanitize/sanitize.go:139-148 | truncation keeps the longest whole-rune prefix that fits |
| SanitizeProofs.LineIsSafe | sanitize/sanitize.go:26-57 | for every byte string the result is well-formed UTF-8 within the limit, free of control and unprintable characters |
| SanitizeProofs.NothingVisibleIsLost | sanitize/sanitize.go:26-57 | every printable character that is no white space stays, in order, up to the cut at the limit |
| SanitizeProofs.LineBreakIsASpace | sanitize/sanitize.go:37-39 | a line break counts as a space wherever it stands |
| SanitizeProofs.LineBreakParts | sanitize/sanitize.go:37-39 | between two printed characters a line break becomes one space |
| SanitizeProofs.MessageIsSafeTelnetLine | sanitize/sanitize.go:107-116 | every sanitized message passes the last check before the console |
| SanitizeProofs.OnePassFallsShortExactly | sanitize/sanitize.go:55-56 | a second pass changes the line if and only if truncation left a trailing space |
| SanitizeProofs.TwoPassesSuffice | sanitize/sanitize.go:31-57 | a third pass never changes anything |
| SanitizeProofs.NameOnePassSuffices | sanitize/sanitize.go:64-82 | names need one pass, hold name characters only and fit the limit |
| SanitizeProofs.NameCharacters | sanitize/sanitize.go:68-79 | a name keeps ASCII letters, digits and _ - . ' and drops every other ASCII character |
| SanitizeProofs.PureNameIsKept | sanitize/sanitize.go:64-82 | up to 64 name characters stay as they are |
| SanitizeProofs.OnePassCanFallShort | sanitize/sanitize.go:55-56 | a line that needs the second pass |
| SanitizeProofs.EchoKeyIsInjective | relay/event.go:178-183 | the echo key of a sanitized name determines name and message |
| SanitizeProofs.SettledKeyStays | agent/agent.go:582-603 | after the hub's and the agent's passes, one more pass leaves the key as it is |
| ItemLinksFormat.OneLinkIsRewritten | telnet/telnet_msg.go:25-75 | a link alone in a message becomes, byte by byte, the text of its style with its name, the URL and its item's number; the longest format that fits decides, and without one nothing is replaced |
| ItemLinksFormat.TrimmedExactly | telnet/telnet_msg.go:74 | trimming takes away white space only, and all of it at either end |
| ItemLinksFormat.ItemIdExactly | telnet/telnet_msg.go:44-48 | an item number written in hexadecimal is read as what it is, at most the largest 64-bit integer, and as 0 when it is none |
| ItemLinksFormat.DecimalReadsBack | telnet/telnet_msg.go:52-70 | an item number is shown in decimal without leading zeros |
| ItemLinks.RewriteRemovesTwo | telnet/telnet_msg.go:42-76 | each rewrite removes two delimiters and adds those of the item URL |
| ItemLinks.FewDelimitersEnd | telnet/telnet_msg.go:73-75 | with fewer than two delimiters in the item URL the recursion ends, the number of delimiters falling each time |
| ItemLinks.NoLinkIsLeft | telnet/telnet_msg.go:25-78 | whenever the recursion ends, its result holds no link of any format in use |
| ItemLinks.ConvertingTwiceIsOnce | telnet/telnet_msg.go:25-78 | whenever the recursion ends, converting its result again changes nothing |
| ItemLinks.DelimitersLeft | telnet/telnet_msg.go:42-76 | with a plain URL exactly two delimiters go per rewrite |
| ItemLinksEnd.EndsExactly | telnet/telnet_msg.go:73-75 | outside the legacy style the recursion ends on every message if and only if the item URL holds no link itself |
| ItemLinksLegacy.EndsUnlessUrlShowsItem | telnet/telnet_msg.go:49-75 | outside the legacy style, and in it when a replacement keeps the URL between fences, the recursion ends on every message if and only if rewriting the URL alone never brings the URL in |
| ItemLinksLegacy.PaddingShowsNothing | telnet/telnet_msg.go:73-75 | text without delimiters around a URL makes no difference to that |
| ItemLinksLegacy.EndsInTurn | telnet/telnet_msg.go:49-75 | then each rewrite takes delimiters of the message's own, or as many stay and delimiters of the copies go |
| ItemLinksLegacy.ShowingUrlNeverEnds | telnet/telnet_msg.go:49-59 | otherwise a message with a fenced copy of the URL is rewritten for ever |
| ItemLinksEnd.PlainFencedUrlEnds | telnet/telnet_msg.go:49-75 | in every style the recursion ends when the URL holds no link and no link can begin before a copy of it and end inside |
| ItemLinksEnd.EndsWhenMarked | telnet/telnet_msg.go:25-78 | then the delimiters that came with the message run out |
| ItemLinksEnd.LinkInUrlNeverEnds | telnet/telnet_msg.go:60-75 | outside the legacy style, with a link in the URL a message with a link is rewritten for ever |
| ItemLinksEnd.LegacyLinkNeverEnds | telnet/telnet_msg.go:49-59 | in the legacy style, with the link of a known item as URL, that link is rewritten for ever |
| Migrate.Installation.RenameConfig | config/migrate.go:45-59 | the old configuration moves only to a place nothing holds |
| Migrate.Installation.MigrateDataFile | config/migrate.go:129-161 | a field with an exact old name gets the current one in its own directory, and its file moves only to a free place |
| Migrate.Installation.MigrateFields | config/migrate.go:84-97 | the fields in turn, and whether any changed |
| Migrate.Installation.Sweep | config/migrate.go:99-112 | in whatever order names are taken, the files, the reports and success are the same |
| Migrate.Installation.Migrate | config/migrate.go:37-122 | a successful migration has one result for every iteration order, and a failed one stops with some of the moves made and nothing saved |
| Migrate.SweepOneMore | config/migrate.go:101-112 | moving one more name commutes with the others |
| Migrate.NamesAreDistinct | config/migrate.go:18-30 | old and current names never collide |
| Migrate.KindsStay | config/migrate.go:22-30 | every old name gets the current name of its own kind |
| MigrateProofs.EveryFileIsKept | config/migrate.go:45-112 | no file but the configuration is lost, changed or overwritten: it stays, or moves to a current name nothing had |
| MigrateProofs.FailureLosesNothing | config/migrate.go:52-112 | a migration that fails half way has lost, changed and overwritten no file but the configuration either |
| MigrateProofs.ConfigIsUpdatedExactly | config/migrate.go:71-119 | the configuration is afterwards at its path, with the new names in it, if and only if it was not swept away: it lay under an old data name, the current name was free and nothing had it saved |
| MigrateProofs.NewFieldAt | config/migrate.go:124-128 | only fields with an exact old name change |
| MigrateProofs.FieldsStillResolve | config/migrate.go:71-97 | a field that named a file still names one, the same unless the current name was taken |
| MigrateProofs.DoneIsSettled | config/migrate.go:99-112 | no old file with a free current name is left beside the configuration |
| MigrateProofs.SecondRunDoesNothing | config/migrate.go:33-37 | for every path, a second run succeeds, changes nothing and reports nothing, if and only if the first did not sweep the configuration away from beside another one |
| MigrateProofs.SecondRunTakesTheOther | config/migrate.go:45-119 | otherwise the second run, if it can finish, puts that other configuration at the path, and the first one's stays under the current data name |
| MigrateProofs.ConfigUnderAnOldNameIsLost | config/migrate.go:45-59 | an input on which the first run sweeps the configuration away and the second puts a forgotten one in its place |
| MigrateProofs.ReportsExactly | config/migrate.go:43-119 | what the operator is told: a configuration found under its old name, each data file swept, and old names replaced in the configuration |

## Left out

- Websockets, HTTP, telnet, Discord, SQL and log tailing, with their deadlines, pings and reconnects: links are queues and may lose frames at any step.
- TLS, argon2id, base64, JSON, TOML and random generation: ideal functions. A hash verifies exactly its own secret, encoding and decoding are inverse.
- The allowlist and address parsing: an arbitrary predicate on addresses.
- Unicode tables: a parameter with two facts, that printable characters are no control characters and the only printable white space is the ASCII space. The upper-casing of enrollment codes is a parameter that fixes the code alphabet, white space and the dash.
- Message templates: an arbitrary result, or a failure.
- Server keys are taken as already sanitized; listings and connected keys are not sorted; display names of origins and timestamps of events are not carried.
- RelaySystem.NoAmplification: an agent restart, which forgets outstanding injections, and the operator's test line (agent/agent.go:525-566), whose sender name is not sanitized, are not steps of this machine. Rate limiting of agents is an arbitrary choice per frame.
- The telnet reader's trigger: the pattern that setup installs for ooc is modelled, other patterns and routes an operator may configure are not. The game is taken to print an injected line as its name, " says ooc, '", its message and a closing quote.
- Hub.Hub.ConnectedKeys: does not sort the keys; no result depends on their order.
- Limiter.AdmittedBetween: tokens are real numbers, rounding of floating point is not modelled.
- SendQueue.Outbound.Send: queue capacities are at least one; the source takes them from a configuration that defaults to 256.
- The texts of refusals and the reasons of bans are not carried.
- RosterRuns.HandlesActAsOneMap: operations of different processes do not overlap and every write succeeds with a modification time never used before; without file locks the code promises no more. What a failed write breaks is stated separately.
- EnrollRuns.UsableCodeRedeems: assumes the same as for the roster, and fresh codes. A code whose redemption could not be saved is gone from the memory of that process. What holds with failing writes is stated separately (EnrollFailures).
- ItemLinksLegacy.EndsUnlessUrlShowsItem: in the legacy style with embedded links and a URL whose delimiters do not stand between visible fences of its own there is a sufficient condition (ItemLinksEnd.PlainFencedUrlEnds) and a failing input (ItemLinksEnd.LegacyLinkNeverEnds), no equivalence: a link may then begin in the message and end inside a copy.
- A configured link pattern is a fixed-length shape like the built-in ones; other regular expressions are not modelled.
- Migrate.Installation.Migrate: a directory is what its path resolves to, by an arbitrary function; a rename fails exactly when the new name is a directory. Other input and output failures, symbolic links, path values with a trailing slash and the temporary file of a save are left out.
- Enrollment.Desk.HandleEnroll: begins after the frame was decoded and its protocol version accepted.
- The agent cap is checked long before the session is added (hub/hub.go:268, hub/hub.go:358), so it is a check and no invariant of concurrent admissions.
- Web interface, setup wizards, installers, logging, command line, player databases and configuration defaults: no protocol state.
