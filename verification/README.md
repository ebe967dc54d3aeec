# A verified model of the proxy core

This project models, in Dafny 4.11, the stateful core of a sing-box based proxy and of its share link converter, and
proves what every run of it keeps. `dafny verify dfyconfig.toml` checks the whole project.

| module | what it is about |
|---|---|
| `DependencyGraph`, `ManagerSpec`, `DnsTransportManager` | the DNS transport manager: its list, tag index and reverse dependency table through every sequence of calls, and the scheduler that starts transports in dependency order |
| `ServiceLifecycle` | the start / reload / close protocol of the daemon, whose reload gives up its mutex twice |
| `ConnectionEvents`, `ConnectionStream` | the incremental connection stream and the client that replays it |
| `ConnectionClose` | who runs a routed connection's close handler, and how often |
| `DnsMessage`, `EdnsSubnet`, `DnsCache`, `DnsClient`, `DnsCacheRuns`, `CacheLock` | the caching DNS client: client subnets, TTL normalisation and ageing, what may be cached and served while exchanges overlap, and the per-question lock |
| `DnsRouter`, `DnsRouting` | the DNS rule walk and its retry loops, alone and on top of the client |
| `RouteRules` | the connection rule walk, as fast pre-match and as full match |
| `Base64`, `Converter` | the share link converter |
| `Prelude` | optional values, duplicate-free sequences, pigeonhole facts |

Concurrent code is a state machine over its atomic sections, and its theorems quantify over every interleaving (`IsRun`).
Objects that the source updates in place are classes; each method is proved against a function on values, and the
run-level theorems are about those functions. The outside world (clocks, the network, registries, parsers, sniffers,
rule conditions) enters as arbitrary values or functions.

## Where the code does not do what it seems to promise

Each of these is proved; where a property fails, the members named state the exact condition under which it holds, or
a concrete input for which it does not.

- Removing a DNS transport that names one dependency twice can erase another transport from the reverse dependency
  table (`RemoveForgetsDependent`, `RemoveKeepsDependents`).
- `Remove` refuses a replacement default exactly when it is not fakeip, the opposite of its message
  (`RemoveReplacesDefault`, `RemoveRefusesPlainDefault`), and the removed transport then stays the default; so does a
  default that is created again without a configured default tag (`ReplacedDefaultStays`, `RunKeepsDefault`).
- `Close` empties the list but not the index (`CloseBreaksIndex`), and a refused fakeip default stays listed and lets
  Start list one tag twice (`RefusedFakeIPDuplicatesTag`, `RunKeepsIndex`), which ends in a nil dereference
  (`StartTransports`, `DuplicateEndsInNil`).
- The EDNS version is read after the TTL was written into the EDNS record, so some TTLs look like a newer version; the
  cached object is then edited and later served with a wrong TTL (`LoadedTTL`, `DnsCacheRuns.ServedTTL`,
  `DowngradeServesTooLong`).
- Two overlapping reloads can announce STARTED for an instance that is still starting (`TwoReloadsAreDishonest`,
  `RunIsHonest`), a failing replaced instance can make the service FATAL (`FatalIsAboutCurrent`, `OldFailureIsFatal`), and a caller
  closing an old instance overwrites FATAL (`FatalIsPermanent`, `FatalCanBeOverwritten`).
- A stream whose early handshake fails runs its close handler once more for every failure, possibly before either
  direction has finished (`HandlerRuns`, `HandlerRunsLast`, `HandlerRunsEarly`).
- Setting a client subnet adds a second EDNS record when the first one is neither last nor carries a subnet
  (`WriteKeepsOneOpt`).
- A DNS reject rule with method `reply` sends the query on without a transport (`NilTransportExactly`,
  `FirstRuleAnswers`).
- A cached response escapes the address limit of a DNS rule (`AnswerEscapesExactly`, `CachedAnswerEscapes`).
- A lookup that is tried again and then stops at a predefined rule returns the predefined addresses with the error of
  the earlier attempt (`CannedLookupFails`, `CannedLookupLeaksError`).

## Model

| member | source | states |
|---|---|---|
| `DependencyGraph.OrderCertifies` | aibooster-sing-box/dns/transport_manager.go:90-120 | a log that starts every transport after its dependencies proves that every dependency is listed and that no cycle exists |
| `DependencyGraph.WalkDescends` | aibooster-sing-box/dns/transport_manager.go:101-107 | along any walk of dependencies the positions in a start order strictly decrease |
| `DependencyGraph.ClosedPathIsCyclic` | aibooster-sing-box/dns/transport_manager.go:127-142 | a path that returns to one of its own tags contains a cycle of the graph |
| `DependencyGraph.FollowUnstarted` | aibooster-sing-box/dns/transport_manager.go:124-143 | in a stuck list without missing dependencies, following unstarted dependencies closes a cycle |
| `DependencyGraph.StuckRefutes` | aibooster-sing-box/dns/transport_manager.go:118-126 | if nothing more can start and something is left, a dependency is missing or circular |
| `DependencyGraph.TagsSize` | aibooster-sing-box/dns/transport_manager.go:118-120 | as many tags as transports if and only if no tag occurs twice |
| `ManagerSpec.IndexedTags` | aibooster-sing-box/dns/transport_manager.go:21-35 | when list and index agree, tags are unique and are the keys of the index |
| `ManagerSpec.InsertKeepsIndex` | aibooster-sing-box/dns/transport_manager.go:263-279 | listing a transport in place of the holder of its tag keeps list and index in agreement |
| `ManagerSpec.CreateKeepsIndex` | aibooster-sing-box/dns/transport_manager.go:245-300 | every Create, refused or not, keeps list and index in agreement and cannot panic |
| `ManagerSpec.RemoveKeepsIndex` | aibooster-sing-box/dns/transport_manager.go:197-243 | every Remove, even one that reports an error, keeps list and index in agreement and cannot panic |
| `ManagerSpec.CreateKeepsFallbackSafe` | aibooster-sing-box/dns/transport_manager.go:284-298 | a non-empty manager without configured default is left without default exactly by listing a fakeip transport into a manager that has none |
| `ManagerSpec.RemoveKeepsFallbackSafe` | aibooster-sing-box/dns/transport_manager.go:197-243 | Remove never leaves a non-empty manager without default |
| `ManagerSpec.PrepareKeepsIndex` | aibooster-sing-box/dns/transport_manager.go:52-88 | Start keeps list and index in agreement if and only if it does not install a fallback whose tag is taken |
| `ManagerSpec.RunKeepsIndex` | aibooster-sing-box/dns/transport_manager.go:52-300 | for every sequence of Create, Remove, Start and Close, with any failures: list and index agree throughout if and only if no Start installs a fallback under a taken tag and no Close clears a non-empty list; and then neither index panic is reached |
| `ManagerSpec.StepKeepsIndex` | aibooster-sing-box/dns/transport_manager.go:52-300 | the same for one call |
| `ManagerSpec.CleanRunIsSound` | aibooster-sing-box/dns/transport_manager.go:52-300 | without Close, and without listing a fakeip transport into a manager that has neither default nor configured default, no fallback ever finds its tag taken |
| `ManagerSpec.RemoveReplacesDefault` | aibooster-sing-box/dns/transport_manager.go:213-224 | Remove changes the default if and only if it removes it and nothing is left or the first transport left is fakeip; it refuses if and only if that one is not fakeip |
| `ManagerSpec.RemoveRefusesPlainDefault` | aibooster-sing-box/dns/transport_manager.go:213-224 | two plain transports: removing the default is refused as fakeip, and the removed transport stays the default |
| `ManagerSpec.RemoveOutcome` | aibooster-sing-box/dns/transport_manager.go:213-242 | what Remove answers, decided by its guards before the call |
| `ManagerSpec.CreateOutcome` | aibooster-sing-box/dns/transport_manager.go:245-300 | what Create answers, decided by its guards before the call |
| `ManagerSpec.CreateShape` | aibooster-sing-box/dns/transport_manager.go:263-292 | a Create that lists its transport becomes the default exactly when it is not fakeip and the default is configured by its tag, or missing |
| `ManagerSpec.CreateFields` | aibooster-sing-box/dns/transport_manager.go:263-299 | the new transport comes last, in place of the holder of its tag; the fakeip transport is set once, and only by an accepted one |
| `ManagerSpec.RemoveFields` | aibooster-sing-box/dns/transport_manager.go:197-243 | Remove takes the tag out of the index, touches no flag, and is refused exactly for an unknown tag |
| `ManagerSpec.RemoveKeepsOrder` | aibooster-sing-box/dns/transport_manager.go:205-211 | the remaining transports keep their order |
| `ManagerSpec.PrepareOutcome` | aibooster-sing-box/dns/transport_manager.go:52-88 | what Start answers and leaves, decided by its guards |
| `ManagerSpec.FakeIPStays` | aibooster-sing-box/dns/transport_manager.go:293-298 | once there is a fakeip transport no call replaces it |
| `ManagerSpec.CloseBreaksIndex` | aibooster-sing-box/dns/transport_manager.go:148-170 | Close keeps the agreement exactly when there was nothing to clear; afterwards every Remove of an indexed tag panics |
| `ManagerSpec.RefusedFakeIPDuplicatesTag` | aibooster-sing-box/dns/transport_manager.go:64-76 | a concrete run in which Start lists two transports under one tag |
| `ManagerSpec.AddDependentsContents` | aibooster-sing-box/dns/transport_manager.go:280-283 | exactly which pairs the reverse table gains |
| `ManagerSpec.DropDependentsAt` | aibooster-sing-box/dns/transport_manager.go:229-238 | exactly what is left under each dependency after a removal, including the case that loses somebody else |
| `ManagerSpec.RemoveDependencies` | aibooster-sing-box/dns/transport_manager.go:197-212 | the dependencies among listed transports after Remove are the earlier ones minus those of the removed tag |
| `ManagerSpec.RemoveKeepsDependents` | aibooster-sing-box/dns/transport_manager.go:197-243 | the reverse table stays exact if and only if the removed transport had no dependencies, or nothing depends on it, its successor as default is not refused, and no repeated dependency had a single other dependent |
| `ManagerSpec.RemoveReportsDependents` | aibooster-sing-box/dns/transport_manager.go:213-228 | with an exact table, the "depended by" error is given if and only if a listed transport needs the tag and the next default is not refused first |
| `ManagerSpec.CreateKeepsDependents` | aibooster-sing-box/dns/transport_manager.go:245-300 | a Create, refused or not, keeps the table exact if and only if it does not list a transport that needs less than the one it replaces |
| `ManagerSpec.PrepareKeepsDependents` | aibooster-sing-box/dns/transport_manager.go:64-73 | Start keeps the table exact if and only if the fallback it installs depends on nothing |
| `ManagerSpec.StepKeepsDependents` | aibooster-sing-box/dns/transport_manager.go:52-300 | the condition for one call |
| `ManagerSpec.RunKeepsDependents` | aibooster-sing-box/dns/transport_manager.go:52-300 | for every run in which list and index agree, the table is exact throughout if and only if no call meets one of these conditions |
| `ManagerSpec.CreateKeepsDefault` | aibooster-sing-box/dns/transport_manager.go:263-292 | Create leaves an unlisted default if and only if it replaces the default and the new transport does not become it |
| `ManagerSpec.RemoveKeepsDefault` | aibooster-sing-box/dns/transport_manager.go:205-224 | Remove leaves an unlisted default if and only if it refuses the successor |
| `ManagerSpec.RunKeepsDefault` | aibooster-sing-box/dns/transport_manager.go:52-300 | for every run in which list and index agree, the default is a listed transport throughout if and only if no call does either |
| `ManagerSpec.ReplacedDefaultStays` | aibooster-sing-box/dns/transport_manager.go:263-292 | a concrete pair of Creates after which the default is a replaced transport |
| `ManagerSpec.InsertEdges` | aibooster-sing-box/dns/transport_manager.go:263-279 | the dependencies among listed transports after a Create |
| `ManagerSpec.RemoveForgetsDependent` | aibooster-sing-box/dns/transport_manager.go:229-238 | a concrete Remove that succeeds and makes the table forget a live dependent |
| `DnsTransportManager.TransportManager.constructor` | aibooster-sing-box/dns/transport_manager.go:37-46 | a new manager is empty |
| `DnsTransportManager.TransportManager.FindUnstarted` | aibooster-sing-box/dns/transport_manager.go:129-131 | returns an unstarted dependency whenever there is one, the empty string otherwise |
| `DnsTransportManager.TransportManager.Ready` | aibooster-sing-box/dns/transport_manager.go:101-106 | a transport is ready if and only if all its dependencies are started |
| `DnsTransportManager.TransportManager.Sweep` | aibooster-sing-box/dns/transport_manager.go:94-117 | one pass extends the start order, and a pass that starts nothing proves that everything unstarted waits for something unstarted |
| `DnsTransportManager.TransportManager.LintTransport` | aibooster-sing-box/dns/transport_manager.go:127-142 | the search for the culprit terminates, and on an agreeing index its answer is a real cycle or a real missing dependency |
| `DnsTransportManager.TransportManager.Diagnose` | aibooster-sing-box/dns/transport_manager.go:124-143 | the diagnosis of a stuck list is a true witness; it has no transport to start from exactly when all tags are started |
| `DnsTransportManager.TransportManager.StartTransports` | aibooster-sing-box/dns/transport_manager.go:90-146 | for every list, whatever the index: nothing starts twice or before its dependencies; unless a transport refuses, it succeeds if and only if tags are distinct, every dependency is listed and none is circular, and then everything was started; it ends in a nil dereference if and only if a tag is listed twice and some order can start every tag; on an agreeing index any other verdict names a true culprit |
| `DnsTransportManager.WitnessRefutes` | aibooster-sing-box/dns/transport_manager.go:132-140 | a diagnosis shows that the graph is cyclic or a dependency missing |
| `DnsTransportManager.AllStarted` | aibooster-sing-box/dns/transport_manager.go:118-120 | counting started tags is enough: as many as listed transports means that tags are distinct and all were started |
| `DnsTransportManager.NotAllStarted` | aibooster-sing-box/dns/transport_manager.go:121-126 | stuck with fewer started tags than transports, a tag is listed twice or a dependency missing or circular |
| `DnsTransportManager.StuckStartedAll` | aibooster-sing-box/dns/transport_manager.go:118-126 | whether everything was started does not depend on the order taken |
| `DnsTransportManager.DuplicateEndsInNil` | aibooster-sing-box/dns/transport_manager.go:124-143 | the list left by a refused fakeip default and the fallback ends in the nil dereference |
| `DnsTransportManager.TransportManager.RecordDependencies` | aibooster-sing-box/dns/transport_manager.go:280-283 | the loop adds the caller once under each dependency, and touches nothing else |
| `DnsTransportManager.TransportManager.ForgetDependencies` | aibooster-sing-box/dns/transport_manager.go:229-238 | the loop computes the removal whose exact effect is DropDependentsAt |
| `DnsTransportManager.TransportManager.Create` | aibooster-sing-box/dns/transport_manager.go:245-300 | the in-place update realises the call the run theorems are about, in every error case |
| `DnsTransportManager.TransportManager.Remove` | aibooster-sing-box/dns/transport_manager.go:197-243 | the in-place update realises the call the run theorems are about, in every error case |
| `DnsTransportManager.TransportManager.Start` | aibooster-sing-box/dns/transport_manager.go:52-88 | the start stage schedules the resulting list with all the promises of the scheduler; a later stage visits the list in order up to the first failure |
| `DnsTransportManager.TransportManager.Close` | aibooster-sing-box/dns/transport_manager.go:148-170 | closing twice is closing once, and the index survives |
| `ServiceLifecycle.InstallKeepsSafe` | aibooster-sing-box/daemon/started_service.go:191-213 | publishing a new instance keeps the lifecycle invariant, when nobody else is closing an old one |
| `ServiceLifecycle.FinishKeepsSafe` | aibooster-sing-box/daemon/started_service.go:216-227 | the last section of a reload keeps it, whatever happened in between |
| `ServiceLifecycle.StepKeepsSafe` | aibooster-sing-box/daemon/started_service.go:176-257 | every atomic section of every call keeps it |
| `ServiceLifecycle.RunIsSafe` | aibooster-sing-box/daemon/started_service.go:176-257 | under every interleaving STARTING and STARTED have an unclosed instance, IDLE has none, STOPPING has exactly one caller closing an old one, STARTING has a caller starting it |
| `ServiceLifecycle.FatalIsPermanent` | aibooster-sing-box/daemon/started_service.go:176-257 | for every run that ends in FATAL: FATAL for ever, however it goes on, if and only if no caller is closing an old instance |
| `ServiceLifecycle.FatalStays` | aibooster-sing-box/daemon/started_service.go:117-129 | without such a caller every later state is FATAL |
| `ServiceLifecycle.CloserReachesStarting` | aibooster-sing-box/daemon/started_service.go:185-204 | such a caller can always go on to STARTING |
| `ServiceLifecycle.FatalCanBeOverwritten` | aibooster-sing-box/daemon/started_service.go:185-191 | a run in which FATAL turns into STARTING |
| `ServiceLifecycle.HonestStep` | aibooster-sing-box/daemon/started_service.go:216-227 | a section keeps "STARTED means started" if and only if it is not the Finish of a successful call while another call is starting the current instance and has not succeeded yet |
| `ServiceLifecycle.RunIsAttributed` | aibooster-sing-box/daemon/started_service.go:176-228 | under every interleaving each instance has one caller that starts it, and its recorded success is that caller's |
| `ServiceLifecycle.StepKeepsAttributed` | aibooster-sing-box/daemon/started_service.go:176-257 | the induction step of that theorem |
| `ServiceLifecycle.RunIsHonest` | aibooster-sing-box/daemon/started_service.go:176-228 | for every interleaving, STARTED is honest throughout if and only if there is no such Finish |
| `ServiceLifecycle.SingleReloadIsHonest` | aibooster-sing-box/daemon/started_service.go:176-257 | with one reload in flight at a time, STARTED always means a started, unclosed instance |
| `ServiceLifecycle.TwoReloadsAreDishonest` | aibooster-sing-box/daemon/started_service.go:176-228 | a run in which it does not |
| `ServiceLifecycle.FatalIsAboutCurrent` | aibooster-sing-box/daemon/started_service.go:216-222 | a failed Finish is about the current instance if and only if no other call is starting that instance |
| `ServiceLifecycle.OldFailureIsFatal` | aibooster-sing-box/daemon/started_service.go:216-222 | a run in which the failure of a replaced instance makes the service FATAL while the new one is still starting |
| `ServiceLifecycle.NoInstanceIsForgotten` | aibooster-sing-box/daemon/started_service.go:176-257 | under every interleaving every instance ever made was closed, except perhaps the current one |
| `ServiceLifecycle.StepKeepsTidy` | aibooster-sing-box/daemon/started_service.go:176-257 | the induction step of that theorem |
| `ServiceLifecycle.CloseLeaves` | aibooster-sing-box/daemon/started_service.go:230-251 | an accepted close leaves IDLE without instance, or FATAL with the instance whose close failed; that instance counts as closed; a refused one changes nothing |
| `ServiceLifecycle.EnterLeaves` | aibooster-sing-box/daemon/started_service.go:176-213 | a reload is refused exactly while STOPPING or FATAL; otherwise it takes over the old instance, installs a fresh one, or fails |
| `ServiceLifecycle.ReplaceLeaves` | aibooster-sing-box/daemon/started_service.go:188-213 | the old instance is closed before a fresh one replaces it |
| `ServiceLifecycle.FinishLeaves` | aibooster-sing-box/daemon/started_service.go:215-225 | only a service that is still STARTING learns how the start went |
| `ServiceLifecycle.ReloadAfterClose` | aibooster-sing-box/daemon/started_service.go:176-251 | for every run with no call in flight: after a successful close a reload is accepted and gets a fresh, unclosed instance |
| `ServiceLifecycle.StartedService.EnterReload` | aibooster-sing-box/daemon/started_service.go:176-213 | the first section: refused exactly while STOPPING or FATAL, otherwise it hands over the old instance |
| `ServiceLifecycle.StartedService.InstallInstance` | aibooster-sing-box/daemon/started_service.go:191-213 | the new instance is published, or the service is FATAL |
| `ServiceLifecycle.StartedService.FinishReload` | aibooster-sing-box/daemon/started_service.go:216-227 | the last section does nothing unless the service is still STARTING |
| `ServiceLifecycle.StartedService.CloseServiceNow` | aibooster-sing-box/daemon/started_service.go:230-251 | refused exactly outside STARTING and STARTED, and then without effect; success leaves IDLE and no instance, failure FATAL and the same instance, which counts as closed either way |
| `ServiceLifecycle.StartedService.SetErrorNow` | aibooster-sing-box/daemon/started_service.go:253-257 | the SetError section of the protocol |
| `ServiceLifecycle.StartedService.StartOrReload` | aibooster-sing-box/daemon/started_service.go:176-228 | an undisturbed reload from any reachable state closes the old instance, publishes a fresh one, and ends STARTED or FATAL |
| `ConnectionEvents.TrackHits` | aibooster-sing-box/daemon/started_service.go:865-924 | tracking one connection brings the client to its real totals, unless a counter went backwards |
| `ConnectionEvents.TrackAllHits` | aibooster-sing-box/daemon/started_service.go:865-924 | the same for every connection of the loop |
| `ConnectionEvents.TrackAllSkips` | aibooster-sing-box/daemon/started_service.go:865-924 | the loop leaves every other connection alone, on both sides |
| `ConnectionEvents.TrackEvents` | aibooster-sing-box/daemon/started_service.go:865-924 | exactly which events one connection causes: NEW, the bytes moved, or after traffic a single zero UPDATE |
| `ConnectionEvents.CloseAllReplays` | aibooster-sing-box/daemon/started_service.go:926-953 | exactly the vanished connections are dropped by the subscriber and closed at the client |
| `ConnectionEvents.TickHits` | aibooster-sing-box/daemon/started_service.go:860-956 | after a tick an active connection is known at its real totals |
| `ConnectionEvents.TickDrops` | aibooster-sing-box/daemon/started_service.go:860-956 | after a tick an inactive connection is known to neither side as open |
| `ConnectionEvents.TickReplays` | aibooster-sing-box/daemon/started_service.go:860-956 | after a tick the snapshots are the active connections, and the replaying client agrees if and only if no tracked counter went backwards |
| `ConnectionEvents.DeliverReplays` | aibooster-sing-box/daemon/started_service.go:820-858 | NEW and CLOSED events keep client and subscriber in agreement |
| `ConnectionEvents.DeliverShows` | aibooster-sing-box/daemon/started_service.go:820-858 | a delivered NEW shows the connection, a delivered CLOSED closes it with its final totals |
| `ConnectionEvents.TickShowsFinals` | aibooster-sing-box/daemon/started_service.go:926-953 | after a tick a vanished connection is closed at the client, with its final totals where they are known and the last ones otherwise |
| `ConnectionEvents.NewEventsReplay` | aibooster-sing-box/experimental/libbox/command_types.go:113-163 | replaying a list of NEW events shows those connections and changes no other |
| `ConnectionEvents.InitialReplays` | aibooster-sing-box/daemon/started_service.go:792-818 | the reset message brings client and subscriber into agreement if and only if no connection is in both lists |
| `ConnectionEvents.ApplyConcat` | aibooster-sing-box/experimental/libbox/command_types.go:113-163 | replaying messages one after the other is replaying their concatenation |
| `ConnectionStream.TrackKeepsHistory` | aibooster-sing-box/daemon/started_service.go:882-923 | `hadTraffic` says whether the last event moved bytes, and a zero UPDATE only follows one that did |
| `ConnectionStream.TickKeepsHistory` | aibooster-sing-box/daemon/started_service.go:860-956 | a whole tick keeps that rule |
| `ConnectionStream.TickKeepsGood` | aibooster-sing-box/daemon/started_service.go:860-956 | a tick brings the snapshots to the real counters of exactly the active connections |
| `ConnectionStream.ActKeepsGood` | aibooster-sing-box/daemon/started_service.go:703-790 | every step of the world (traffic, opening, closing, delivery in any order, ticks) keeps the agreement |
| `ConnectionStream.RunInSync` | aibooster-sing-box/daemon/started_service.go:703-956 | at every point of every run the replayed stream gives the subscriber's snapshots, and zero UPDATEs never follow one another |
| `ConnectionStream.TickShowsReality` | aibooster-sing-box/daemon/started_service.go:703-956 | right after every tick the client's open connections are the active ones with their real counters |
| `ConnectionStream.Subscription.BuildInitialConnectionState` | aibooster-sing-box/daemon/started_service.go:792-818 | the reset message and the snapshots it leaves are those of InitialReplays |
| `ConnectionStream.Subscription.ApplyConnectionEvent` | aibooster-sing-box/daemon/started_service.go:820-858 | the delivery step of the run theorems |
| `ConnectionStream.Subscription.BuildTrafficUpdates` | aibooster-sing-box/daemon/started_service.go:860-956 | the tick of the run theorems, for some order of the vanished connections |
| `ConnectionClose.SwapKeepsAccounts` | aibooster-sing-box/route/conn.go:252-255 | a swap of the shared flag keeps the account of owed and done handler runs |
| `ConnectionClose.StepKeepsSound` | aibooster-sing-box/route/conn.go:99-111 | every step of every connection keeps all accounts and the list |
| `ConnectionClose.RunIsSound` | aibooster-sing-box/route/conn.go:99-111 | under every interleaving the list holds, once each, exactly the connections whose handler has not run |
| `ConnectionClose.ListSteps` | aibooster-sing-box/route/conn.go:99-106 | a connection is listed last, and its handler takes out that one and keeps the order of the others |
| `ConnectionClose.HandlerRuns` | aibooster-sing-box/route/conn.go:238-320 | when all is over the handler of a stream ran once plus once per failed early handshake, that of a packet connection once |
| `ConnectionClose.HandlerRunsLast` | aibooster-sing-box/route/conn.go:267-320 | while a direction is still being copied a run is done or due if and only if failed handshakes and finished directions are at least two together; the handler runs once only if and only if no handshake failed |
| `ConnectionClose.PacketHandlerRunsFirst` | aibooster-sing-box/route/conn.go:381-404 | the first finished direction of a packet connection owes the handler, and no other |
| `ConnectionClose.HandlerRunsEarly` | aibooster-sing-box/route/conn.go:238-262 | a run in which the handler runs while both copies are still going |
| `CacheLock.AcquireKeepsSound` | aibooster-sing-box/dns/client.go:145-146 | acquiring keeps map, channels and callers consistent |
| `CacheLock.DeleteKeepsSound` | aibooster-sing-box/dns/client.go:154-158 | so does the deferred delete |
| `CacheLock.LeaveKeepsSound` | aibooster-sing-box/dns/client.go:146-158 | so do closing, waking up and giving up |
| `CacheLock.RunIsSound` | aibooster-sing-box/dns/client.go:143-176 | under every interleaving every map entry has one caller in flight that will remove it and close its channel |
| `CacheLock.DeleteRemovesOwn` | aibooster-sing-box/dns/client.go:154-158 | the delete by question always removes the caller's own channel and nothing else |
| `CacheLock.WaiterIsNoOrphan` | aibooster-sing-box/dns/client.go:146-153 | a waiter's channel is closed already if and only if its owner is no longer in flight |
| `CacheLock.AllReturned` | aibooster-sing-box/dns/client.go:143-176 | when all owners returned no entry is left and every channel was closed exactly once |
| `CacheLock.RunIsMatched` | aibooster-sing-box/dns/client.go:143-176 | every caller, waiting or not, holds a channel that was installed for its own question |
| `CacheLock.OneOwner` | aibooster-sing-box/dns/client.go:143-176 | no two callers own one question at the same time |
| `CacheLock.AcquireWaits` | aibooster-sing-box/dns/client.go:145-153 | a caller that comes while a question is owned waits on the channel of that owner |
| `CacheLock.AcquireOwns` | aibooster-sing-box/dns/client.go:145-159 | a caller that finds the question free owns it, with a channel nobody has |
| `EdnsSubnet.TargetIsUnique` | aibooster-sing-box/dns/extension_edns0_subnet.go:18-30 | the place where the subnet goes is determined by the records |
| `EdnsSubnet.WriteIsFound` | aibooster-sing-box/dns/extension_edns0_subnet.go:13-57 | a reader of the new message finds the prefix just set as its first subnet option, and no other record changed |
| `EdnsSubnet.WriteMeaning` | aibooster-sing-box/dns/extension_edns0_subnet.go:31-55 | family 1 for IPv4 and 2 for IPv6 (section 6 of RFC 7871); an existing option keeps its scope; class, TTL and all other options stay |
| `EdnsSubnet.LastWriteWins` | aibooster-sing-box/dns/extension_edns0_subnet.go:13-57 | setting two subnets is setting the second |
| `EdnsSubnet.WriteKeepsOneOpt` | aibooster-sing-box/dns/extension_edns0_subnet.go:13-57 | a query with at most one EDNS record has exactly one afterwards, if and only if it had none or it was a usable place |
| `EdnsSubnet.WriteAddsSecondOpt` | aibooster-sing-box/dns/extension_edns0_subnet.go:31-40 | a concrete query that ends up with two |
| `EdnsSubnet.FindTarget` | aibooster-sing-box/dns/extension_edns0_subnet.go:18-30 | the search loop finds the declaratively defined place |
| `EdnsSubnet.WriteInPlace` | aibooster-sing-box/dns/extension_edns0_subnet.go:44-55 | writing into the records of a copy changes only that place |
| `EdnsSubnet.WriteCopy` | aibooster-sing-box/dns/extension_edns0_subnet.go:41-56 | with a place, the subnet is written into a deep copy |
| `EdnsSubnet.AddRecord` | aibooster-sing-box/dns/extension_edns0_subnet.go:31-56 | without a place a new message is made and the given one stays as it was |
| `EdnsSubnet.Message.Copy` | aibooster-sing-box/dns/extension_edns0_subnet.go:41-43 | a deep copy shares no EDNS record with its original or within itself |
| `EdnsSubnet.SetClientSubnet` | aibooster-sing-box/dns/extension_edns0_subnet.go:9-57 | the result is a new message with the prefix in its place; the caller's message and records do not change |
| `DnsCache.ScanTTL` | aibooster-sing-box/dns/client.go:285-293 | the scan yields the least positive TTL, or 0 when there is none |
| `DnsCache.LeastPositiveIsUnique` | aibooster-sing-box/dns/client.go:285-293 | that describes one TTL only |
| `DnsCache.FirstSOA` | aibooster-sing-box/dns/client.go:98-110 | the negative TTL is the lesser of TTL and MINIMUM of the first SOA record (section 5 of RFC 2308) |
| `DnsCache.ChooseTTLMeaning` | aibooster-sing-box/dns/client.go:279-293 | an empty answer is cached for its negative TTL, any other response for its least positive TTL |
| `DnsCache.EditMeaning` | aibooster-sing-box/dns/client.go:306-315 | exactly when the EDNS record stays, goes, or is replaced by a plain one of the same size and DNSSEC flag |
| `DnsCache.LastOptMeaning` | aibooster-sing-box/dns/client.go:306-307 | the EDNS record that counts is the last one |
| `DnsCache.AgedExact` | aibooster-sing-box/dns/client.go:484-510 | after ageing every record shows the time left if and only if all were stored with the same TTL, or none with a positive one |
| `DnsCache.DowngradeUniform` | aibooster-sing-box/dns/client.go:306-316 | an EDNS downgrade leaves the records with one TTL if and only if there was nothing but EDNS |
| `DnsCache.StoredShowsTimeLeft` | aibooster-sing-box/dns/client.go:297-316 | a stored response will show the time left if and only if the store did not downgrade EDNS, or stored nothing else |
| `DnsCache.LoadedTTL` | aibooster-sing-box/dns/client.go:459-512 | an unexpired entry is served with the whole seconds left, never more than its stored TTL, under exactly that condition |
| `DnsCache.DowngradeServesTooLong` | aibooster-sing-box/dns/client.go:297-316 | a concrete response served for 167231 seconds with 99999 left |
| `DnsClient.SubnetIsNotSimple` | aibooster-sing-box/dns/client.go:126-141 | with a subnet in force, from the call or the client, no query counts as simple |
| `DnsClient.SubnetBypassesCache` | aibooster-sing-box/dns/client.go:126-176 | an exchange with a subnet neither writes the cache nor depends on its contents |
| `DnsClient.ExchangeEffect` | aibooster-sing-box/dns/client.go:112-318 | an exchange changes the cache only at its own key: an accepted response is entered, or else an expired entry goes |
| `DnsClient.LoadOutcome` | aibooster-sing-box/dns/client.go:441-483 | an entry is served exactly when it is there and not expired; an expired one goes |
| `DnsClient.LoadMeaning` | aibooster-sing-box/dns/client.go:472-511 | an unexpired entry is served unchanged but for TTLs, and every TTL is the whole number of seconds left if and only if the stored TTLs were all the same |
| `DnsClient.LoadMovesTTLs` | aibooster-sing-box/dns/client.go:484-503 | where they differ, each is moved by the time elapsed of the least positive one, with 32-bit wrap-around |
| `DnsClient.ServedFromCache` | aibooster-sing-box/dns/client.go:177-182 | a result from the cache is so related to the entry under the call's own key |
| `DnsClient.KeysShared` | aibooster-sing-box/dns/client.go:376-399 | two calls share an entry if and only if they ask the same question, of the same transport in independent mode |
| `DnsClient.CacheUseMeaning` | aibooster-sing-box/dns/client.go:134-142 | exactly which queries may use the cache |
| `DnsClient.ResultMeaning` | aibooster-sing-box/dns/client.go:112-318 | every result of an exchange, by the guards it passed |
| `DnsClient.SentSubnet` | aibooster-sing-box/dns/client.go:126-132 | the subnet of the call comes before the client's own, and is the one a server finds in the query |
| `DnsClient.AnsweredMeaning` | aibooster-sing-box/dns/client.go:279-317 | the answer of the transport is passed on with code and records, under one TTL |
| `DnsCacheRuns.AcceptedMayStore` | aibooster-sing-box/dns/client.go:126-304 | a response that is stored was accepted, without a client subnet, with code success or name error and a nonzero TTL |
| `DnsCacheRuns.StepKeepsTraced` | aibooster-sing-box/dns/client.go:112-318 | the induction step of the next theorem, for every step of every call in flight and evictions at any time |
| `DnsCacheRuns.EveryEntryIsTraced` | aibooster-sing-box/dns/client.go:112-318 | under every interleaving each entry refers to the response object of such an exchange for its own question (and transport, in independent mode), edited as far as that call has come |
| `DnsCacheRuns.LawfulEditLeads` | aibooster-sing-box/dns/client.go:306-315 | the edit ends in the final object, directly or after the EDNS record was taken out |
| `DnsCacheRuns.EditingShowsTimeLeft` | aibooster-sing-box/dns/client.go:297-315 | an object not yet fully edited shows the time left on every record |
| `DnsCacheRuns.EditedShowsTimeLeft` | aibooster-sing-box/dns/client.go:297-315 | a fully edited one does so if and only if the edit did not leave a new EDNS record beside others |
| `DnsCacheRuns.ServedTTL` | aibooster-sing-box/dns/client.go:401-513 | under every interleaving, whoever reads an unexpired entry gets no more than its stored TTL, and exactly the seconds left if and only if the storing call is still editing or left no new EDNS record beside others |
| `DnsCacheRuns.ServedMessage` | aibooster-sing-box/dns/client.go:441-513 | under every interleaving, the message itself that a reader gets: the response stored for this key, unchanged but for TTLs, showing the seconds left under exactly that condition |
| `DnsCacheRuns.UndisturbedIsExchange` | aibooster-sing-box/dns/client.go:112-318 | the steps of a call that nobody disturbs do to the cache what the exchange does |
| `DnsClient.Client.ScanList` | aibooster-sing-box/dns/client.go:286-292 | scanning list after list is scanning their concatenation |
| `DnsClient.Client.LeastTTL` | aibooster-sing-box/dns/client.go:285-293 | the nested loop finds the least positive TTL of the whole message |
| `DnsClient.Client.ExtractNegativeTTL` | aibooster-sing-box/dns/client.go:98-110 | the loop finds the negative TTL characterised by FirstSOA |
| `DnsClient.Client.PickTTL` | aibooster-sing-box/dns/client.go:279-296 | the TTL whose meaning is ChooseTTLMeaning, unless a rewrite is asked for |
| `DnsClient.Client.OverwriteTTL` | aibooster-sing-box/dns/client.go:297-301 | every record gets the TTL and keeps everything else |
| `DnsClient.Client.NormaliseTTL` | aibooster-sing-box/dns/client.go:278-301 | the response object carries one TTL throughout |
| `DnsClient.Client.LoadResponse` | aibooster-sing-box/dns/client.go:441-513 | realises the load whose result LoadOutcome, LoadMeaning and LoadMovesTTLs state |
| `DnsClient.Client.AgedCopy` | aibooster-sing-box/dns/client.go:484-511 | the served copy shows each TTL reduced by the elapsed time |
| `DnsClient.Client.Reduce` | aibooster-sing-box/dns/client.go:497-510 | the loop subtracts the elapsed time with the 32-bit wrap-around of the source |
| `DnsClient.Client.StoreThenEdit` | aibooster-sing-box/dns/client.go:302-316 | editing the object just stored edits that entry of the cache and no other |
| `DnsClient.Client.FinishExchange` | aibooster-sing-box/dns/client.go:278-318 | what the caller gets is the object the cache holds, edited after the store |
| `DnsClient.Client.DoExchangeCall` | aibooster-sing-box/dns/client.go:112-318 | the in-place exchange realises the step of the run theorems, in every early return |
| `DnsRouter.MatchDNS` | aibooster-sing-box/dns/router.go:120-199 | the walk stops at the first matching ending rule after the given one, with the caller's options overlaid by exactly the matching rules on the way |
| `DnsRouter.ApplyOptions` | aibooster-sing-box/dns/router.go:178-190 | a rule's options replace those in force only where the rule sets them |
| `DnsRouter.ApplyRoute` | aibooster-sing-box/dns/router.go:157-176 | the same for a route action, with the transport's own defaults |
| `DnsRouter.WalkMeaning` | aibooster-sing-box/dns/router.go:129-198 | by the actions themselves: which rules a walk passes, and which end it |
| `DnsRouter.StopApplies` | aibooster-sing-box/dns/router.go:129-136 | the rule a walk stops at matches, and an address limit counts for address queries only |
| `DnsRouter.LastSetterWins` | aibooster-sing-box/dns/router.go:178-190 | the last rule that sets an option decides it |
| `DnsRouter.CallerDecidesRest` | aibooster-sing-box/dns/router.go:178-190 | the caller's own value stays where no rule sets one |
| `DnsRouter.RouteOptionsMeaning` | aibooster-sing-box/dns/router.go:147-177 | the options of a routed query: the rule's, then the collected, then the transport's legacy settings, then the default |
| `DnsRouter.ChainAdvances` | aibooster-sing-box/dns/router.go:246-319 | the matched rules of one query strictly advance, so it is sent at most once more than there are rules |
| `DnsRouter.ChainIsFresh` | aibooster-sing-box/dns/router.go:246-319 | no attempt carries options over from the rules whose answers were rejected |
| `DnsRouter.ChainExtends` | aibooster-sing-box/dns/router.go:246-319 | a fresh attempt after a rejected one is a longer chain |
| `DnsRouter.NextAttempt` | aibooster-sing-box/dns/router.go:251-286 | one round of the loop extends the chain, unless a rule answers by itself |
| `DnsRouter.Judge` | aibooster-sing-box/dns/router.go:288-315 | realises the verdict on one outcome that RetriesExactly and RetryMetadata state |
| `DnsRouter.Exchange` | aibooster-sing-box/dns/router.go:246-319 | the loop terminates; its queries form such a chain; it answers with the first query that is not to be tried again, or exactly as the rule says that stops the walk without being a route |
| `DnsRouter.RetriesExactly` | aibooster-sing-box/dns/router.go:287-318 | an attempt is tried again if and only if its response is outside the limit, or it failed uncancelled under a bypassing rule; any other is the answer |
| `DnsRouter.RetryMetadata` | aibooster-sing-box/dns/router.go:276-282 | what each walk sees: the caller's metadata, or the addresses of the last checked, usable response |
| `DnsRouter.Lookup` | aibooster-sing-box/dns/router.go:338-437 | the same for lookups, with their own rule for trying again; the answer of a predefined rule is joined to what the last lookup left in result and error; an empty result is an error; no rule sends a lookup to a fakeip transport |
| `DnsRouter.AnswerLookup` | aibooster-sing-box/dns/router.go:389-410 | what a rule answers that is no route, and with which error |
| `DnsRouter.FilterBlocked` | aibooster-sing-box/dns/blocked_checker.go:23-37 | the addresses that are not blocked, in order |
| `DnsRouter.JudgeLookup` | aibooster-sing-box/dns/router.go:411-429 | which lookups are tried again, and what the metadata becomes |
| `DnsRouter.LookupRetriesExactly` | aibooster-sing-box/dns/router.go:411-429 | a lookup is tried again if and only if it is empty under a bypassing rule or failed under an address limit; and what the next walk sees |
| `DnsRouter.ChainsAgree` | aibooster-sing-box/dns/router.go:246-319 | two chains under the same circumstances agree as far as both go |
| `DnsRouter.EndedChainIsLongest` | aibooster-sing-box/dns/router.go:246-319 | a chain that came to an end cannot be continued |
| `DnsRouter.ExchangeIsDetermined` | aibooster-sing-box/dns/router.go:246-319 | rules, options and outcomes determine one answer and one sequence of queries |
| `DnsRouter.LookupIsDetermined` | aibooster-sing-box/dns/router.go:379-430 | and one for lookups |
| `DnsRouter.CannedLookupFails` | aibooster-sing-box/dns/router.go:338-437 | a predefined answer comes with an error if and only if its code is not success, no address is left, or the lookup before it failed |
| `DnsRouter.CannedLookupLeaksError` | aibooster-sing-box/dns/router.go:393-436 | a concrete rule list: the predefined address is returned together with the error of the rule before it |
| `DnsRouter.NilTransportExactly` | aibooster-sing-box/dns/router.go:254-287 | the client is handed a nil transport if and only if the walk comes to a reject rule with method reply |
| `DnsRouter.RuleAnswersExactly` | aibooster-sing-box/dns/router.go:255-274 | refused, dropped, predefined or nil transport, if and only if the rule says so |
| `DnsRouter.FirstRuleAnswers` | aibooster-sing-box/dns/router.go:246-274 | if the first rule to stop the walk is no route, nothing is sent, whatever the outcomes would be |
| `DnsRouter.LimitedAnswer` | aibooster-sing-box/dns/router.go:276-317 | a checked response that ends the loop under an address limit meets the limit, and none ends it as rejected |
| `DnsRouter.UncheckedAnswer` | aibooster-sing-box/dns/client.go:112-182 | a response that the client did not check is the answer whenever it is given |
| `DnsRouting.ErrorsAgree` | aibooster-sing-box/dns/router.go:287-312 | the loop sees a failure if and only if the client returns an error |
| `DnsRouting.ResultShape` | aibooster-sing-box/dns/client.go:112-318 | which result the client gives, by its guards |
| `DnsRouting.LocalMeansCached` | aibooster-sing-box/dns/client.go:143-182 | past the fixed responses, the client answers without its transport if and only if an unexpired entry is stored under the call's key |
| `DnsRouting.EscapesExactly` | aibooster-sing-box/dns/client.go:177-182 | a response ends the loop outside the limit of its rule if and only if the client gave it without asking its transport and it is outside the limit |
| `DnsRouting.AnswerEscapesExactly` | aibooster-sing-box/dns/router.go:246-319 | the same for the answer of every exchange of the router whose last attempt is limited |
| `DnsRouting.CachedAnswerEscapes` | aibooster-sing-box/dns/router.go:276-317 | a concrete rule that admits nothing, and a cached response that is the answer |
| `RouteRules.ApplyRouteOptions` | aibooster-sing-box/route/route.go:530-588 | exactly which metadata a route or route-options rule replaces |
| `RouteRules.ApplyOverride` | aibooster-sing-box/route/route.go:537-556 | the destination is overridden, and the one before the first override recorded |
| `RouteRules.ApplyDialSettings` | aibooster-sing-box/route/route.go:557-588 | dial settings are replaced only where the rule sets them |
| `RouteRules.ActionSniff` | aibooster-sing-box/route/route.go:634-829 | a protocol found earlier is not sniffed again; what a sniffer writes stays even when it asks for more data; a broken connection is fatal |
| `RouteRules.ActionResolve` | aibooster-sing-box/route/route.go:831-855 | only domain destinations are resolved, from the metadata and the rule's own query options; a failing resolver or unknown server is fatal |
| `RouteRules.Perform` | aibooster-sing-box/route/route.go:530-607 | what a matched rule does to the shared metadata, in both kinds of walk |
| `RouteRules.WalkRules` | aibooster-sing-box/route/route.go:506-632 | the loop finds the outcome whose rules PassedRules, SelectedRule and FailedRule characterise, with the metadata made by all matching rules up to it |
| `RouteRules.MatchRule` | aibooster-sing-box/route/route.go:409-632 | the same after the preparation of the metadata, every fatal error included |
| `RouteRules.PassedRules` | aibooster-sing-box/route/route.go:590-629 | a matching rule that a walk passes is no route, reject or hijack, no bypass with an outbound or supported, and no sniff of a pre-match, ICMP excepted |
| `RouteRules.SelectedRule` | aibooster-sing-box/route/route.go:590-629 | the selected rule matches and is one of these |
| `RouteRules.FailedRule` | aibooster-sing-box/route/route.go:590-612 | a walk fails at a resolve rule whose resolver fails, or at a sniff that finds the connection broken |
| `RouteRules.OverrideFields` | aibooster-sing-box/route/route.go:537-556 | field by field, what an override changes and what it records |
| `RouteRules.ResolveFields` | aibooster-sing-box/route/route.go:831-855 | only the resolved addresses of a domain change |
| `RouteRules.SniffFields` | aibooster-sing-box/route/route.go:638-695 | what a sniff writes, and when it replaces the destination |
| `RouteRules.UnmaskFields` | aibooster-sing-box/route/route.go:447-468 | a fakeip destination becomes its domain and is remembered; a missing record ends the match; an unknown domain is looked up |
| `RouteRules.InboundFields` | aibooster-sing-box/route/route.go:476-504 | what the deprecated inbound options change, and when they fail |
| `RouteRules.PreparedFields` | aibooster-sing-box/route/route.go:416-504 | what the whole preparation leaves |
| `RouteRules.UnmaskDestination` | aibooster-sing-box/route/route.go:447-468 | fakeip destinations become their domains, or the match fails for want of a record |
| `RouteRules.ApplyInboundOptions` | aibooster-sing-box/route/route.go:476-504 | the deprecated inbound options act once and are cleared |
| `RouteRules.OutcomeIsUnique` | aibooster-sing-box/route/route.go:506-632 | a rule list and metadata have exactly one outcome |
| `RouteRules.WalksAgree` | aibooster-sing-box/route/route.go:506-632 | until the pre-match stops, both walks carry the same metadata and neither has stopped |
| `RouteRules.FastIsSlow` | aibooster-sing-box/route/route.go:506-632 | a pre-match that was not stopped at a sniff rule or a bypass without outbound is an outcome of the full match |
| `RouteRules.FastAgreesWithSlow` | aibooster-sing-box/route/route.go:506-632 | for every rule list the full match gives the pre-match's rule and metadata if and only if that rule is neither a sniff rule nor a bypass without outbound |
| `RouteRules.PreMatchAgrees` | aibooster-sing-box/route/route.go:409-632 | the same from the packet's metadata on, error cases included |
| `RouteRules.PrepareAgrees` | aibooster-sing-box/route/route.go:416-504 | without inbound sniffing both walks start from the same metadata |
| `RouteRules.NoOverrideYet` | aibooster-sing-box/route/route.go:537-558 | before the first override nothing is recorded, and a valid destination stays valid |
| `RouteRules.OriginalIsFirst` | aibooster-sing-box/route/route.go:537-540 | the recorded original destination is the one before the first override, and no later rule overwrites it |
| `Base64.RoundTrip` | ray2sing/ray2sing/hb64.go:37-43 | for both alphabets decoding inverts encoding, for every byte string |
| `Base64.AlphabetTable` | ray2sing/ray2sing/hb64.go:37-43 | the two alphabets of tables 1 and 2 of RFC 4648 |
| `Base64.BreaksIgnored` | ray2sing/ray2sing/hb64.go:37-43 | line breaks anywhere are ignored |
| `Base64.BlanksAreWhiteSpace` | ray2sing/ray2sing/hb64.go:31-31 | every Unicode white space is trimmed at either end |
| `Base64.BlanksAreOnlyWhiteSpace` | ray2sing/ray2sing/hb64.go:31-31 | and nothing else |
| `Base64.AlphabetsAgree` | ray2sing/ray2sing/hb64.go:36-46 | a text that both alphabets can read means the same in both |
| `Base64.EitherAlphabet` | ray2sing/ray2sing/hb64.go:36-47 | what either alphabet reads is what the decoder returns: the order of the attempts does not matter |
| `Base64.PaddingRestored` | ray2sing/ray2sing/hb64.go:32-34 | cutting any part of the padding of an encoding is undone |
| `Base64.TolerantRoundTrip` | ray2sing/ray2sing/hb64.go:29-48 | every byte string survives encoding in either alphabet, loss of padding, surrounding blanks and decoding |
| `Base64.OnlyEncodingsAreRead` | ray2sing/ray2sing/hb64.go:36-47 | nothing else is read: a text read as d equals the encoding of d except in unused bits |
| `Base64.LinksAreUntouched` | ray2sing/ray2sing/common.go:435-444 | a text with a byte of neither alphabet, such as a share link, is passed on unchanged |
| `Converter.EncodedLinkIsTheLink` | ray2sing/ray2sing/convert.go:146-150 | a base64 encoded share link gives what the plain link gives |
| `Converter.Split` | ray2sing/ray2sing/convert.go:144-144 | the links of a line, joined by arrows again, are the line |
| `Converter.PartsHaveNoArrow` | ray2sing/ray2sing/convert.go:144-144 | and no link contains an arrow |
| `Converter.ItoaInjective` | ray2sing/ray2sing/convert.go:159-159 | different counters have different decimal forms |
| `Converter.ItoaMeaning` | ray2sing/ray2sing/convert.go:159-159 | the decimal form denotes the counter |
| `Converter.NumberIsRecoverable` | ray2sing/ray2sing/convert.go:159-159 | the counter can be read back from a numbered tag, whatever the tag was |
| `Converter.NodesMadeWell` | ray2sing/ray2sing/convert.go:138-186 | entry k carries number k, and a detour names the entry before it in the same line or nothing |
| `Converter.TagsAreDistinct` | ray2sing/ray2sing/convert.go:138-186 | whatever the parsers return, no two entries share a tag |
| `Converter.DetoursFormChains` | ray2sing/ray2sing/convert.go:142-180 | an entry sends its traffic through another if and only if that one was made just before it from the same line and it has dialer settings; so detours never come back |
| `Converter.LinkBecomesEntry` | ray2sing/ray2sing/convert.go:138-186 | from the input to the entries: a link that parses becomes the entry numbered by the lines before it and the parsing links after it in its line, with its own kind and tag, and is sent through the entry of the next parsing link |
| `Converter.EntriesAreLinks` | ray2sing/ray2sing/convert.go:138-186 | a line adds as many entries as it has links that parse |
| `Converter.TwoLinkChain` | ray2sing/ray2sing/convert.go:145-184 | in a chain of two links the first is sent through the second |
| `Converter.LinksMeaning` | ray2sing/ray2sing/convert.go:139-144 | exactly which lines are skipped |
| `Converter.ProcessMeaning` | ray2sing/ray2sing/convert.go:78-128 | an outbound comes before an endpoint, and an entry without tag is called by its type |
| `Converter.ItemsMeaning` | ray2sing/ray2sing/convert.go:167-178 | each list holds exactly the entries of its kind, in the order they were made |
| `Converter.ConvertLine` | ray2sing/ray2sing/convert.go:142-184 | the inner loop adds the entries of one line that LinkBecomesEntry describes |
| `Converter.GenerateConfigLite` | ray2sing/ray2sing/convert.go:130-198 | both lists hold the produced entries in order, and the conversion fails if and only if no link parsed |
| `Converter.CheckTags` | aibooster-sing-box/option/options.go:89-98 | one pass keeps the set of seen tags and stops at the first repetition |
| `Converter.EffectiveMeaning` | aibooster-sing-box/option/options.go:89-93 | an entry without tag is known by its position |
| `Converter.CheckOutbounds` | aibooster-sing-box/option/options.go:87-110 | the check accepts if and only if the effective tags of both lists are distinct, and otherwise names the first repetition |
| `Converter.GeneratedConfigPasses` | aibooster-sing-box/option/options.go:87-110 | whatever the parsers return, the check accepts what the converter produces |

## Left out

- PreMatchAgrees: does not cover ICMP, which only the pre-match sees (connections are TCP or UDP), nor the deprecated inbound sniffing, which pre-match skips by design.
- RunKeepsIndex: assumes that the registry makes transports with the tag asked for.
- ConnectionClose.RunIsSound: does not cover the connection manager's own Close, which empties the list while handlers are still to run.
- RunInSync: counters are unbounded and do not go backwards; without the second assumption TickReplays says exactly what happens.
- LoadedTTL: does not model the floating point rounding of the seconds left; whole nanoseconds are divided exactly.
- EveryEntryIsTraced: eviction by the cache library is the removal of any entry at any time; a reader copies a response object in one step; what callers do later to the object they share with the cache is not modelled.
- Closing or failing dials before a connection is registered, and the copying of the bytes themselves.
- OriginalIsFirst: assumes a valid destination; an invalid one does not last as a record.
- Router calls with a transport chosen by the caller, which skip the rules, and the reverse mapping of answers.
- The DNS client's rejected-response store, its merging of address families in lookups, and the filtering of address hints in HTTPS records.
- Calls of the transport manager while Start is running on a copied list, and the aliasing of slices after an element was cut out of a backing array.
- Buffers and packet buffers kept by sniffing, and the choice of outbound after a rule was selected.
- Libraries are modelled by what they document: the EDNS helpers of the DNS library, the socket address type, the base64 decoder and the trimming of white space of the Go library.
- The parsers of the single link formats, the splitting of the input into lines, rule conditions, outbounds, inbounds, endpoints and platform code.
