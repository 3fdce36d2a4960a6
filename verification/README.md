# A verified model of AstrBot's stateful and recursive kernels

AstrBot is a chatbot and agent platform.  Most of it connects services, but some small parts
carry promises that are hard to see from one body of code: limiters and schedulers, saves that
race, tasks that must not leak, rewritings of JSON trees, worklists, text scanners and orders.
This project models those parts in Dafny and proves what they promise, one module per component:

- `AuthRateLimit`: the dashboard's token buckets and the registry that evicts idle ones.
- `SlidingWindow`: the gateway's sliding-window limiter.
- `ProviderKeys`: discovery and cyclic rotation of provider keys with cooldowns.
- `ConfigSaves`: two-phase configuration saves under two locks, as a step system.
- `ConfigIntegrity`: the repair of a configuration against its defaults.
- `McpConnection`: who owns the connection tasks of an MCP client, as a step system.
- `McpSchema`, `GeminiSchema`: rewritings of tool schemas.
- `OpenApi`: pruning the public API document to what is reachable.
- `WikiLinks`: scanning and rewriting Markdown links.
- `FolderTree`: the persona folder tree, built from arbitrary parent data.
- `Checkpoints`: binding and dumping checkpoints of a chat history.
- `GroupChat`: the queues of a group chat between replies.
- `LiveFeeder`: cutting streamed text into sentence chunks.
- `VersionCompare`: comparing version strings.

`Json`, `Text`, `Ordering` and `Numerals` hold what several of them share: ordered dicts, Python
string conventions, lexicographic orders and decimal numerals.

Code that changes state is a class or a method with loops, proved equal to a function on values;
the theorems are about runs of that function.  Clock readings are parameters, floats are reals,
dicts are ordered lists of fields wherever their order is visible, and whatever the code cannot
control (interleavings, failures, set iteration order, matches of a regular expression) is
quantified over.  `dafny verify dfyconfig.toml` checks the whole project.

Where the code and its documentation differ, the model follows the code.  The version
comparator's docstring says "Semver semantics" (`astrbot/cli/utils/version_comparator.py:9-11`),
but lower-casing and deleting every letter v can misorder a version: 1.0.0-RC lands above
1.0.0-beta (`BetaBeforeRC`).  `OrderedAsSemverIff` says by their text which versions are ordered
properly against those that read the same afterwards; against all versions none is
(`NoneOrderedThroughout`).  The rate limiter registry expires entries as merely idle
(`astrbot/dashboard/server.py:74`); that is harmless exactly under the condition of
`EvictionInvisibleIff`, and `EvictingClientBound` says what it costs elsewhere.  The sliding
window needs clock readings in lock order, which the code does not ensure, to be exact
(`ExactIffInOrder`); its bound needs less (`BoundedIff`).  A cleanup of an MCP client can forget a
running task, or wait for one that nobody asked to stop; `OwnedIff` and `EndsIff` say exactly
when.  The repair's docstring promises True for new items or a changed order
(`astrbot/core/config/astrbot_config.py:174`); a null default makes it True on an unchanged
configuration as well, see `FlagIffChanged`.

## Model

| member | source | states |
|---|---|---|
| `AuthRateLimit.EffectiveParams` | astrbot/dashboard/server.py:361-369 | any configured interval and burst are clamped to a bucket of capacity at least 1 and positive rate; positive values are used as they are, and the fallbacks are 1.0 and 3 |
| `AuthRateLimit.AuthRateLimiter.constructor` | astrbot/dashboard/server.py:52-58 | a new bucket is full, with the two clock readings it took |
| `AuthRateLimit.AuthRateLimiter.Acquire` | astrbot/dashboard/server.py:60-70 | the whole new state and the answer of one draw are those of the pure step the theorems are about |
| `AuthRateLimit.AcquireKeepsRange` | astrbot/dashboard/server.py:60-70 | tokens stay within [0, capacity] when the clock does not run backwards |
| `AuthRateLimit.AcceptedArePaidFor` | astrbot/dashboard/server.py:60-70 | from any state and over any run, what is accepted up to t is at most the tokens in hand plus the refill until t |
| `AuthRateLimit.WindowBound` | astrbot/dashboard/server.py:60-70 | in every run and for every closed window [s, t], at most capacity + (t - s) * rate acquires are accepted |
| `AuthRateLimit.AcceptedIff` | astrbot/dashboard/server.py:60-70 | the exact answers, without tokens: from any bucket and for any times a call is accepted iff, with it, every window from an earlier call on holds at most capacity + length * rate accepted calls, and the bucket in hand pays for all of them |
| `AuthRateLimit.FreshAcceptedIff` | astrbot/dashboard/server.py:52-70 | so a new bucket accepts exactly the calls that fit into every such window |
| `AuthRateLimit.RefusalLeavesNoTrace` | astrbot/dashboard/server.py:60-70 | a refused call changes no later answer |
| `AuthRateLimit.SpacedCallsPass` | astrbot/dashboard/server.py:60-70 | calls at least 1/rate apart are never refused, however long the run, provided the first one finds a token |
| `AuthRateLimit.FreshSpacedCallsPass` | astrbot/dashboard/server.py:52-70 | so it is for every new bucket, also when it is drawn on at once |
| `AuthRateLimit.RateLimiterRegistry.EvictExpired` | astrbot/dashboard/server.py:93-101 | the sweep runs at most every 1800 s and then removes exactly the buckets not accessed for 3600 s |
| `AuthRateLimit.RateLimiterRegistry.GetOrCreate` | astrbot/dashboard/server.py:83-91 | sweeps first; then the client has its old bucket, or a full one, and no bucket is shared between clients |
| `AuthRateLimit.RateLimiterRegistry.Apply` | astrbot/dashboard/server.py:370-373 | a whole rate-limited request is the pure step Handle on the registry value |
| `AuthRateLimit.EvictionInvisible` | astrbot/dashboard/server.py:73-101 | if capacity <= 3600 * rate, then over all clients and all monotone runs the evicting registry gives the same answers as buckets that are never evicted |
| `AuthRateLimit.EvictionVisible` | astrbot/dashboard/server.py:73-101 | if capacity > 3600 * rate, a run is constructed in which the answers differ |
| `AuthRateLimit.EvictionInvisibleIff` | astrbot/dashboard/server.py:73-101 | hence eviction is unobservable exactly when capacity <= 3600 * rate |
| `AuthRateLimit.ConfiguredEviction` | astrbot/dashboard/server.py:361-369 | the same condition on the configured values: burst * interval <= one hour |
| `AuthRateLimit.SpacedClientsPass` | astrbot/dashboard/server.py:73-101 | a client whose requests are at least 1/rate apart is never refused by the evicting registry, from its first request on, for every configuration and whatever the others do |
| `AuthRateLimit.ClientsAreIndependent` | astrbot/dashboard/server.py:73-101 | where eviction is unobservable, the evicting registry gives each client the same sequence of answers as in the run without all other clients |
| `AuthRateLimit.ClientAcceptedIff` | astrbot/dashboard/server.py:73-101 | where eviction is unobservable, a request is accepted iff it fits into every window that begins with an earlier request of the same client |
| `AuthRateLimit.RefusedRequestLeavesNoTrace` | astrbot/dashboard/server.py:73-101 | and leaving a refused request out of a run changes no other answer, of any client |
| `AuthRateLimit.ReferenceClientBound` | astrbot/dashboard/server.py:73-91 | without eviction every client, from its first request on, is held to the window bound of one bucket |
| `AuthRateLimit.RegistryClientBound` | astrbot/dashboard/server.py:73-101 | so is every client of the evicting registry where eviction is unobservable |
| `AuthRateLimit.EvictingClientBound` | astrbot/dashboard/server.py:73-101 | for every configuration the evicting registry accepts at most capacity + (t - s) * (rate + capacity / 3600) requests of a client in [s, t] |
| `AuthRateLimit.Retention` | astrbot/dashboard/server.py:83-101 | after any run a request finds every client that called within the last 3600 s, no client idle for 5400 s, and no sweep within 1800 s of another |
| `SlidingWindow.InMemoryRateLimiter.Allow` | app/gateway/rate_limiter.py:29-51 | the queues and the answer after one call are those of the pure step |
| `SlidingWindow.InMemoryRateLimiter.Cleanup` | app/gateway/rate_limiter.py:53-74 | expired entries are dropped everywhere and exactly the clients left without entries are deleted |
| `SlidingWindow.RunTracks` | app/gateway/rate_limiter.py:29-74 | in every in-order run each queue is a suffix of the client's accepted times, and what it lost is outside the window |
| `SlidingWindow.AllowIsExact` | app/gateway/rate_limiter.py:43-51 | a call is refused iff maxRequests accepted calls already lie in (now - window, now] |
| `SlidingWindow.RunIsExact` | app/gateway/rate_limiter.py:29-74 | every in-order run of calls and cleanups answers as a limiter that keeps the full history and never cleans up |
| `SlidingWindow.WindowBound` | app/gateway/rate_limiter.py:29-74 | no half-open window of the configured length holds more than maxRequests accepted calls of a client, if, once the clock has gone d past a reading, no later reading comes nearer to it than d |
| `SlidingWindow.BoundedIff` | app/gateway/rate_limiter.py:29-74 | that condition on the clock readings, which lock order implies, holds iff the bound holds for all assignments of calls, cleanups and clients and all configurations |
| `SlidingWindow.BoundBroken` | app/gateway/rate_limiter.py:29-74 | a run that breaks the bound: a cleanup at 11 between calls at 0 and 5 |
| `SlidingWindow.CleanupInvisible` | app/gateway/rate_limiter.py:53-74 | removing all cleanups from a run changes no answer and no accepted call |
| `SlidingWindow.CleanupKeeps` | app/gateway/rate_limiter.py:53-74 | after an in-order run a cleanup keeps exactly the clients with an accepted call in the window, and of those exactly these calls |
| `SlidingWindow.ExactIffInOrder` | app/gateway/rate_limiter.py:29-51 | clock readings are in lock order iff, for all assignments of clients and all configurations, the queues answer as the full history |
| `SlidingWindow.SwappedCalls` | app/gateway/rate_limiter.py:33-51 | the second of two calls of a new client is refused although its own window is empty, for any two readings out of order and after any run of other clients |
| `SlidingWindow.OutOfOrderRefusal` | app/gateway/rate_limiter.py:33-44 | one such run in numbers |
| `ProviderKeys.NumberedKeys` | app/providers/manager.py:79-86 | the non-blank numbered variables by number, the last one winning |
| `ProviderKeys.DiscoverKeys` | app/providers/manager.py:56-94 | base value first, then the numbered ones in numeric order, stripped, without blanks and without repeats |
| `ProviderKeys.DiscoveryExact` | app/providers/manager.py:56-94 | from the environment alone: after the base value come the non-blank values of the variables PREFIXn, of each number the last one, in the order of the numerals read as texts, each value where it comes first |
| `ProviderKeys.ValueOfExact` | app/providers/manager.py:73-73 | the base value is that of the variable with the name, or empty |
| `ProviderKeys.MergeInOrder` | app/providers/manager.py:88-92 | merging into the values found so far gives the first occurrences of the concatenation |
| `ProviderKeys.DistinctIsDistinct` | app/providers/manager.py:91-92 | removing repeats leaves no two equal values and loses no value |
| `ProviderKeys.ScanFinds` | app/providers/manager.py:209-222 | the scan returns the first available slot in cyclic order, and fails only when no key is available |
| `ProviderKeys.BoundedWaiting` | app/providers/manager.py:206-217 | a key that stays available is returned once more gets succeed than slots lie before it, whatever errors and successes are reported in between |
| `ProviderKeys.BoundedWaitingN` | app/providers/manager.py:206-217 | so it is returned within n gets |
| `ProviderKeys.EvenUse` | app/providers/manager.py:206-217 | while all keys stay available, m gets use each key floor(m/n) or ceiling(m/n) times, according to its slot |
| `ProviderKeys.FairUse` | app/providers/manager.py:206-217 | and the usage counts of two keys differ by at most one |
| `ProviderKeys.CooldownIsDeadline` | app/providers/manager.py:225-305 | after any run a key's cooldown, failure count and status are what its history calls for: 3600, 60, 30, 15 or 10 seconds after its last failure, or reset by a later success |
| `ProviderKeys.GetRespectsDeadlines` | app/providers/manager.py:206-222 | a key is returned only after the cooldown of its last failure report, unless a success was reported since; a get fails only if no deadline has passed |
| `ProviderKeys.DuplicatesDefeatCooldown` | app/providers/manager.py:91-92 | without distinct values a failed key comes back before its cooldown ends |
| `ProviderKeys.KeyUsageRecord.IsAvailable` | app/providers/models.py:86-88 | availability of a record is availability of the key it stands for |
| `ProviderKeys.AvailableMeansServed` | app/providers/manager.py:307-322 | the status report counts an available key iff a get at that instant succeeds |
| `ProviderKeys.ProviderKeyManager.LoadFromEnv` | app/providers/manager.py:121-159 | a reload leaves exactly the providers with discovered keys, with fresh records and counter 0 |
| `ProviderKeys.ProviderKeyManager.MakeRecords` | app/providers/manager.py:140-149 | one fresh record per discovered value, in order |
| `ProviderKeys.ProviderKeyManager.LoadedRingIsFresh` | app/providers/manager.py:135-152 | so a loaded provider starts as a ring of distinct values, which the deadline theorems assume |
| `ProviderKeys.ProviderKeyManager.GetKey` | app/providers/manager.py:172-222 | unknown provider, no keys, all on cooldown or the scanned key; only this provider's counter moves; the first call loads the keys and serves the first one |
| `ProviderKeys.ProviderKeyManager.Rotate` | app/providers/manager.py:206-222 | the scan under the lock: the new counter and the answer are those of the ring step |
| `ProviderKeys.ProviderKeyManager.ReportError` | app/providers/manager.py:245-289 | the first record with the value gets the cooldown and status of the failure; no other record changes |
| `ProviderKeys.ProviderKeyManager.ReportSuccess` | app/providers/manager.py:291-301 | the first record with the value is reset; no other record changes |
| `ProviderKeys.ProviderKeyManager.StatusSnapshot` | app/providers/manager.py:307-322 | available plus cooling keys are all keys, for every provider and no other |
| `ConfigSaves.AstrBotConfig.PrepareConfigSnapshot` | astrbot/core/config/astrbot_config.py:275-281 | merges the replacement, and draws the next revision for a snapshot of the whole dict |
| `ConfigSaves.AstrBotConfig.WriteConfigSnapshot` | astrbot/core/config/astrbot_config.py:302-323 | replaces the file iff the write succeeded and the revision is newer than the committed one; the dict is not touched |
| `ConfigSaves.AstrBotConfig.SaveConfig` | astrbot/core/config/astrbot_config.py:232-242 | a save without concurrent writers leaves the whole merged dict in the file |
| `ConfigSaves.RunFollows` | astrbot/core/config/astrbot_config.py:275-281 | in every interleaving the dict, the counter and the snapshots in flight follow the sequence of prepare steps |
| `ConfigSaves.FileHoldsNewest` | astrbot/core/config/astrbot_config.py:308-316 | in every interleaving the committed revision is the greatest that reached the commit section, and the file is exactly its snapshot |
| `ConfigSaves.CommitAnswer` | astrbot/core/config/astrbot_config.py:308-323 | a writer's answer is True iff no newer revision has reached the commit |
| `ConfigSaves.NotBoth` | astrbot/core/config/astrbot_config.py:302-323 | no revision is in two of the states waiting, past the commit, failed |
| `ConfigSaves.EveryRevisionSettles` | astrbot/core/config/astrbot_config.py:244-263 | in every interleaving each drawn revision is waiting, past the commit, or failed |
| `ConfigSaves.SavesLinearise` | astrbot/core/config/astrbot_config.py:265-323 | in every interleaving of saves, waiting and failed writers included, the dict is the fold of all replacements in revision order and the file the fold of those up to the committed revision; that is all of them iff the newest writer has reached the commit |
| `ConfigSaves.QuiescentCommit` | astrbot/core/config/astrbot_config.py:302-323 | when every writer is through, the committed revision is the newest that did not fail |
| `ConfigSaves.CommitOrderIrrelevant` | astrbot/core/config/astrbot_config.py:265-323 | two interleavings with the same draws and the same failures end in the same state, whatever the commit order |
| `ConfigSaves.NewestValueWins` | astrbot/core/config/astrbot_config.py:265-323 | once the newest writer has committed, each key of the file has the value of the newest replacement that mentions it, or its initial one |
| `ConfigIntegrity.CheckConfigIntegrity` | astrbot/core/config/astrbot_config.py:173-230 | the loops compute the repaired dict and the flag of the recursive repair |
| `ConfigIntegrity.CheckValue` | astrbot/core/config/astrbot_config.py:181-209 | one entry: default for a missing, null or wrongly typed value, recursion into dicts, otherwise the present value |
| `ConfigIntegrity.RepairShapes` | astrbot/core/config/astrbot_config.py:178-209 | at every dict level the result has the reference's keys in the reference's order |
| `ConfigIntegrity.RepairKeeps` | astrbot/core/config/astrbot_config.py:188-209 | at every path, a present non-null value whose reference is not a dict is kept, and otherwise the default is taken |
| `ConfigIntegrity.FlagIffChanged` | astrbot/core/config/astrbot_config.py:211-224 | for any reference: True iff the config changed, order included, or a null default met a configured null |
| `ConfigIntegrity.FlagForNullFree` | astrbot/core/config/astrbot_config.py:211-224 | for a reference without nulls: True iff the config changed |
| `ConfigIntegrity.RepairIdempotent` | astrbot/core/config/astrbot_config.py:173-230 | a second run changes nothing |
| `ConfigIntegrity.SecondRunFlag` | astrbot/core/config/astrbot_config.py:173-230 | a second run returns True iff a null stands where the default is null; with a null-free reference it returns False |
| `ConfigIntegrity.RepairWellFormed` | astrbot/core/config/astrbot_config.py:178-228 | the result has distinct keys at every level |
| `ConfigIntegrity.NullDefaultAlwaysReported` | astrbot/core/config/astrbot_config.py:188-191 | with a null default an unchanged config is reported as changed |
| `McpConnection.MCPClient.CancelConnectionTask` | astrbot/core/agent/mcp_client.py:662-672 | finished tasks are pruned and an unfinished one is tracked |
| `McpConnection.MCPClient.ConnectUntilAwait` | astrbot/core/agent/mcp_client.py:490-497 | a connect retires the running task and owns the new one |
| `McpConnection.MCPClient.ReconnectUntilAwait` | astrbot/core/agent/mcp_client.py:707-713 | a reconnect up to its first await |
| `McpConnection.MCPClient.OnConnectCancelled` | astrbot/core/agent/mcp_client.py:501-509 | a cancelled caller retires the task it waited for |
| `McpConnection.MCPClient.OnConnectFailed` | astrbot/core/agent/mcp_client.py:510-518 | a failed connect tracks its task without cancelling it |
| `McpConnection.MCPClient.CleanupUntilAwait` | astrbot/core/agent/mcp_client.py:780-788 | a cleanup retires the current task and awaits exactly the unfinished tracked ones |
| `McpConnection.MCPClient.CleanupAfterAwait` | astrbot/core/agent/mcp_client.py:788-788 | and then forgets all of them |
| `McpConnection.StepKeepsOwners` | astrbot/core/agent/mcp_client.py:486-518 | every step other than the clearing keeps each unfinished owner task tracked, whatever overlaps |
| `McpConnection.StepKeepsStack` | astrbot/core/agent/mcp_client.py:440-464 | the client's exit stack always belongs to an unfinished task |
| `McpConnection.StackIsLastStarted` | astrbot/core/agent/mcp_client.py:440-464 | over all runs the exit stack is that of the task that started last, as long as that has not finished |
| `McpConnection.CancelledExactly` | astrbot/core/agent/mcp_client.py:490-518 | a step cancels the unfinished current task iff it is a connect, a reconnect, a cancelled connect or a cleanup, and nothing else but what a cancelled cleanup waits for |
| `McpConnection.RetiredExactly` | astrbot/core/agent/mcp_client.py:490-518 | which unfinished tasks are current and which are listed after each step |
| `McpConnection.CurrentNeverCancelled` | astrbot/core/agent/mcp_client.py:486-518 | over all runs a connection is never asked to stop while it is the current one |
| `McpConnection.CleanupAwaitsExactly` | astrbot/core/agent/mcp_client.py:780-788 | a cleanup waits iff some task the client knows is unfinished, and then for exactly these |
| `McpConnection.CleanupEndsClean` | astrbot/core/agent/mcp_client.py:784-788 | when a cleanup returns no unfinished owner task remains |
| `McpConnection.ClearIff` | astrbot/core/agent/mcp_client.py:788-788 | clearing the list keeps every unfinished task tracked iff no task in it is unfinished, other than the current one |
| `McpConnection.OwnedIff` | astrbot/core/agent/mcp_client.py:776-788 | over all runs, with any overlap of connects and cleanups: no unfinished owner task is ever lost iff that holds at every clearing |
| `McpConnection.CleanIff` | astrbot/core/agent/mcp_client.py:784-788 | no unfinished task remains when a cleanup returns iff the current one and the listed ones have finished by then |
| `McpConnection.OwnershipHolds` | astrbot/core/agent/mcp_client.py:776-788 | over all runs in which no connect begins while a cleanup waits: unfinished tasks are tracked, and none survives a returning cleanup |
| `McpConnection.ReconnectIsConnect` | astrbot/core/agent/mcp_client.py:687-713 | cancelling first in the reconnect and again in the connect ends as a plain connect |
| `McpConnection.OverlapLosesTask` | astrbot/core/agent/mcp_client.py:784-788 | without the hypothesis: a run of six steps after which an unfinished task is tracked nowhere |
| `McpConnection.StepKeepsEnding` | astrbot/core/agent/mcp_client.py:510-518 | of all steps only a failing connect can list a running task nobody asked to stop, and exactly if the current task is another call's |
| `McpConnection.EndsIff` | astrbot/core/agent/mcp_client.py:486-518 | over all runs: every listed unfinished task was cancelled or has failed, iff no connect fails while another call's running task is current |
| `McpConnection.CleanupWaitsForEnding` | astrbot/core/agent/mcp_client.py:780-788 | a cleanup waits only for tasks that will end iff the list held only such tasks |
| `McpConnection.UnaskedWait` | astrbot/core/agent/mcp_client.py:510-518 | a run of five steps, without overlap, after which a cleanup waits for a task nobody asked to stop |
| `McpSchema.NormalizeIsNormal` | astrbot/core/agent/mcp_client.py:350-388 | at every depth no property schema keeps a boolean required, and required lists beside properties are non-empty and free of repeats |
| `McpSchema.NormalIsFixed` | astrbot/core/agent/mcp_client.py:350-388 | schemas in that form are left as they are |
| `McpSchema.NormalizeIdempotent` | astrbot/core/agent/mcp_client.py:340-390 | normalising twice is normalising once, and the result is in normal form |
| `McpSchema.NormalNeverRaises` | astrbot/core/agent/mcp_client.py:383-384 | the de-duplication never meets an unhashable entry in such a schema |
| `McpSchema.ListedExactly` | astrbot/core/agent/mcp_client.py:367-386 | the new required list has no repeats and holds exactly the old entries and the properties originally flagged true, except a shadowed one; being shadowed is defined on the input alone |
| `McpSchema.FlaggedExactly` | astrbot/core/agent/mcp_client.py:367-381 | which properties are lifted, whatever their own nested required children |
| `McpSchema.ShadowedIsMissing` | astrbot/core/agent/mcp_client.py:371-381 | a shadowed property named required is missing from the new list unless it was listed before |
| `McpSchema.ShadowedExample` | astrbot/core/agent/mcp_client.py:371-381 | such a schema: its property required is flagged true and not in the new list |
| `McpSchema.OtherKeysUntouched` | astrbot/core/agent/mcp_client.py:357-357 | every other key of a node is only normalised in place |
| `McpSchema.PropertiesExact` | astrbot/core/agent/mcp_client.py:363-381 | every property stays, normalised, and loses its required member iff that is a boolean; nothing else of it changes |
| `McpSchema.ListedNothingElse` | astrbot/core/agent/mcp_client.py:367-386 | other entries of the required list than names are the old ones |
| `McpSchema.InPlace` | astrbot/core/agent/mcp_client.py:350-357 | lists, scalars and dicts without properties are only normalised inside |
| `GeminiSchema.ConvertIdempotent` | astrbot/core/agent/tool.py:237-316 | converting a converted schema gives it back |
| `GeminiSchema.ConvertCloses` | astrbot/core/agent/tool.py:237-316 | every output node is an anyOf of output nodes, or has a supported type, items exactly on arrays, format only where allowed, and no unsupported key |
| `GeminiSchema.ConvertKeeps` | astrbot/core/agent/tool.py:269-290 | supported fields are kept as they are, and the type if it is supported |
| `GeminiSchema.ConvertKeepsProperties` | astrbot/core/agent/tool.py:292-304 | properties are kept by name and order, each converted |
| `GeminiSchema.NodeExact` | astrbot/core/agent/tool.py:250-316 | what a converted node holds under every key: the supported type asked for or null, the allowed format, the converted properties and items, the supported fields, and nothing else |
| `GeminiSchema.AnyOfExact` | astrbot/core/agent/tool.py:247-248 | every option of an anyOf is kept, converted, in its place |
| `GeminiSchema.ConvertsIff` | astrbot/core/agent/tool.py:237-316 | a conversion raises exactly on the schemas that are not convertible, at any depth |
| `OpenApi.ParsesExactly` | docs/scripts/update_openapi_json.py:87-102 | a reference parses to (section, name) iff it is the prefix, a slash-free section, a slash and the name |
| `OpenApi.IterRefsExact` | docs/scripts/update_openapi_json.py:67-84 | the references found in a value are exactly the strings with the prefix that stand as $ref of a dict at some position, by keys and indices, of the value |
| `OpenApi.UsedRefs` | docs/scripts/update_openapi_json.py:134-147 | the worklist loop terminates and marks exactly the references a chain of local references reaches; it fails iff one leads into a section that is not a dict |
| `OpenApi.ExploredAll` | docs/scripts/update_openapi_json.py:137-147 | with nothing pending, marked means reachable |
| `OpenApi.FilterPublicOpenapi` | docs/scripts/update_openapi_json.py:105-162 | the whole filter, including the inputs on which it raises |
| `OpenApi.KeptIffNeeded` | docs/scripts/update_openapi_json.py:134-160 | outside securitySchemes the output has exactly the components to which a chain of such positions leads from its own paths, unchanged |
| `OpenApi.SectionsExact` | docs/scripts/update_openapi_json.py:149-161 | a section of components stays as it is if it is securitySchemes or no dict, and otherwise stays iff something in it is needed |
| `OpenApi.MentionsStillResolve` | docs/scripts/update_openapi_json.py:134-161 | whatever the output's paths or its components outside securitySchemes refer to, at any position, stands for the same component as before |
| `OpenApi.RaisesIff` | docs/scripts/update_openapi_json.py:105-147 | the filter raises iff it cannot read the tags, the paths or the components, or something needed lies in a section that is not a dict |
| `OpenApi.KeptIffReachable` | docs/scripts/update_openapi_json.py:149-160 | outside securitySchemes a component is kept, unchanged, iff it is reachable from a kept operation |
| `OpenApi.RefsStillResolve` | docs/scripts/update_openapi_json.py:149-161 | references of kept operations and kept components resolve as before |
| `OpenApi.SchemeRefsResolveIff` | docs/scripts/update_openapi_json.py:149-160 | a reference out of a kept security scheme that resolved before still resolves iff it leads to a scheme or to something reachable |
| `OpenApi.SchemeRefsMayDangle` | docs/scripts/update_openapi_json.py:149-160 | so it may be left dangling: one such document, with what the filter makes of it |
| `OpenApi.KeepPathsExact` | docs/scripts/update_openapi_json.py:121-132 | an operation is kept, unchanged, iff its path is not excluded and it carries a public tag |
| `OpenApi.PublicIff` | docs/scripts/update_openapi_json.py:126-130 | an operation is public iff a public tag stands in its list of tags before any list or dict; and what tags of other types lead to |
| `OpenApi.KeepPathsRaise` | docs/scripts/update_openapi_json.py:121-130 | the paths raise iff one that is not excluded is no dict, or has an operation that is no dict or whose tags raise |
| `OpenApi.KeepTagsExact` | docs/scripts/update_openapi_json.py:115-119 | the kept top-level tags are exactly the objects with a public name, in order |
| `OpenApi.KeepTagsRaise` | docs/scripts/update_openapi_json.py:115-119 | and they raise iff some object has a list or a dict for its name |
| `OpenApi.OthersCopied` | docs/scripts/update_openapi_json.py:114-161 | all other members of the document are copied |
| `OpenApi.FilterTwice` | docs/scripts/update_openapi_json.py:105-162 | filtering the filtered document gives the same document |
| `OpenApi.PruneKeepsReachability` | docs/scripts/update_openapi_json.py:149-160 | pruning to the reachable components changes no reachability |
| `WikiLinks.FindLabelEnd` | docs/scripts/sync_docs_to_wiki.py:108-123 | the label loop computes the function the label theorem is about |
| `WikiLinks.LabelEndIsFirst` | docs/scripts/sync_docs_to_wiki.py:108-123 | no earlier unescaped ']' with a '(' after it is passed over |
| `WikiLinks.FindTargetEnd` | docs/scripts/sync_docs_to_wiki.py:126-141 | the target loop computes the function the target theorem is about |
| `WikiLinks.TargetEndIsUnderflow` | docs/scripts/sync_docs_to_wiki.py:126-141 | the end is the first unescaped ')' at which the nesting underflows; -1 iff there is none |
| `WikiLinks.TryLink` | docs/scripts/sync_docs_to_wiki.py:157-186 | one turn of the scan |
| `WikiLinks.TryTarget` | docs/scripts/sync_docs_to_wiki.py:167-186 | the target half of a turn |
| `WikiLinks.IterMarkdownLinks` | docs/scripts/sync_docs_to_wiki.py:144-186 | the scanning loop terminates and yields the links the theorems are about |
| `WikiLinks.ScanIsLossless` | docs/scripts/sync_docs_to_wiki.py:144-186 | spans are in bounds, ordered and disjoint, even when a '!' moves a start back, and prefix + target + suffix is the source slice |
| `WikiLinks.ScanTargetsBalanced` | docs/scripts/sync_docs_to_wiki.py:173-185 | every yielded target ends where its nesting underflows |
| `WikiLinks.AttemptedIff` | docs/scripts/sync_docs_to_wiki.py:151-186 | one turn of the scan finds l iff l is the link that begins at this bracket: label up to the first unescaped closing bracket that only whitespace separates from a parenthesis, target up to its underflow, a preceding exclamation mark included |
| `WikiLinks.ScanIsSound` | docs/scripts/sync_docs_to_wiki.py:144-186 | every yielded link is the one that begins at its bracket |
| `WikiLinks.ScanIsComplete` | docs/scripts/sync_docs_to_wiki.py:151-186 | every '[' is inside a yielded link or begins no link |
| `WikiLinks.RewriteLinksInSegment` | docs/scripts/sync_docs_to_wiki.py:324-342 | the rewriting loop computes the rewriting the theorems are about |
| `WikiLinks.RewriteChangesOnlyTargets` | docs/scripts/sync_docs_to_wiki.py:324-342 | for every target map the result interleaves the same verbatim text with the mapped targets |
| `WikiLinks.RewriteIdentity` | docs/scripts/sync_docs_to_wiki.py:324-342 | with the identity map the segment comes back |
| `WikiLinks.InlineSegments` | docs/scripts/sync_docs_to_wiki.py:350-357 | the inner loop of the segmentation |
| `WikiLinks.IterSegments` | docs/scripts/sync_docs_to_wiki.py:345-373 | the outer loop of the segmentation |
| `WikiLinks.SplitLossless` | docs/scripts/sync_docs_to_wiki.py:345-373 | the segments concatenate to the document |
| `WikiLinks.NoEmptyText` | docs/scripts/sync_docs_to_wiki.py:345-373 | no segment of plain text is empty |
| `WikiLinks.RewriteDocument` | docs/scripts/sync_docs_to_wiki.py:345-395 | for every target map the output is, in order, each fence and each inline match unchanged, and each stretch of text between them with the same verbatim text around mapped targets |
| `WikiLinks.RewriteDocumentIdentity` | docs/scripts/sync_docs_to_wiki.py:376-395 | with the identity map the whole document comes back |
| `FolderTree.DepthBound` | astrbot/core/persona_mgr.py:304-311 | a parent chain that reaches a root is shorter than the number of folders, so the recursive sort terminates on any data |
| `FolderTree.SortSorted` | astrbot/core/persona_mgr.py:305-305 | sorting orders by (sort_order, name) |
| `FolderTree.SortStable` | astrbot/core/persona_mgr.py:305-305 | and is a stable permutation: elements with equal keys keep their order |
| `FolderTree.Attach` | astrbot/core/persona_mgr.py:294-301 | the attaching loop leaves every folder with exactly its children in database order; folders with a missing parent go nowhere |
| `FolderTree.SortFolders` | astrbot/core/persona_mgr.py:304-311 | the recursive in-place sort sorts the children lists of exactly the folders of the forest below the given ones, and leaves all others alone |
| `FolderTree.SortChildren` | astrbot/core/persona_mgr.py:307-309 | the same for one folder and its descendants |
| `FolderTree.GetFolderTree` | astrbot/core/persona_mgr.py:276-313 | the returned dictionaries represent the forest |
| `FolderTree.ForestExact` | astrbot/core/persona_mgr.py:291-313 | for arbitrary parent data the forest contains each folder whose chain reaches a null parent exactly once, and no other |
| `FolderTree.CycleUnrooted` | astrbot/core/persona_mgr.py:296-301 | a folder that is its own ancestor, directly or through others, is left out |
| `FolderTree.ForestSorted` | astrbot/core/persona_mgr.py:304-313 | at every depth siblings are ordered by sort_order, then by name at the first differing character, then as in the database, and every child names the node above it as its parent |
| `Checkpoints.BindCheckpointMessages` | astrbot/core/agent/message.py:327-342 | the loop creates fresh messages whose values are the pure binding; it raises iff an item does not validate |
| `Checkpoints.DumpMessagesWithCheckpoints` | astrbot/core/agent/message.py:345-361 | the loop dumps what the pure dump gives |
| `Checkpoints.BindExact` | astrbot/core/agent/message.py:330-335 | each message carries the last well-formed checkpoint between it and the next message, wherever it stands |
| `Checkpoints.BoundAreStripped` | astrbot/core/agent/message.py:327-342 | the bound messages are the validated non-checkpoint items in order, with their no-save flags |
| `Checkpoints.MessageReadBack` | astrbot/core/agent/message.py:239-246 | a message item in canonical form dumps to itself |
| `Checkpoints.DumpCanonical` | astrbot/core/agent/message.py:345-361 | whatever is dumped is canonical |
| `Checkpoints.RoundTripIff` | astrbot/core/agent/message.py:327-361 | dump(bind(h)) == h iff h is canonical: no leading checkpoint, at most one well-formed checkpoint after each message, no temporary flags, no missing or extra keys |
| `Checkpoints.DumpBindIdempotent` | astrbot/core/agent/message.py:327-361 | dump after bind is idempotent on every history that loads |
| `Checkpoints.ItemSaved` | astrbot/core/agent/message.py:82-290 | an item loads, and is saved, as its JSON fields say: role, content without the temporary parts, of every part the fields of its type, tool fields unless null |
| `Checkpoints.DumpIsSavedHistory` | astrbot/core/agent/message.py:327-361 | for every history: it loads iff every item but the checkpoints does, and what is dumped is then the saved items, each followed by its last checkpoint |
| `Checkpoints.TemporaryPartsAreDropped` | astrbot/core/agent/message.py:350-355 | a history that loads is dumped as if all content parts with a truthy _no_save had been deleted before |
| `Checkpoints.SavedPartsCount` | astrbot/core/agent/message.py:350-355 | as many parts are saved of an item as are not temporary |
| `Checkpoints.BoundFlags` | astrbot/core/agent/message.py:337-340 | a bound message is temporary iff its item is flagged so |
| `Checkpoints.StripDumpBindIff` | astrbot/core/agent/message.py:305-361 | stripping the saved history gives the stripped original iff its messages are canonical |
| `GroupChat.GroupChatContext.HandleMessage` | astrbot/builtin_stars/astrbot/group_chat_context.py:147-156 | appends to both queues in lockstep, trims them to the maximum, and remembers the last index; other origins are untouched |
| `GroupChat.GroupChatContext.TrimLeft` | astrbot/builtin_stars/astrbot/group_chat_context.py:290-298 | the loop keeps the newest entries of both queues |
| `GroupChat.GroupChatContext.OnReqLlm` | astrbot/builtin_stars/astrbot/group_chat_context.py:160-195 | what is injected and what stays queued; nothing happens past the end of the queue or without a record |
| `GroupChat.GroupChatContext.RemoveSession` | astrbot/builtin_stars/astrbot/group_chat_context.py:130-138 | forgets one origin and counts what it dropped |
| `GroupChat.RunSlices` | astrbot/builtin_stars/astrbot/group_chat_context.py:147-187 | in every run both queues are one suffix of the arrival log, and the injected blocks are disjoint contiguous slices of it in arrival order, so nothing is injected twice |
| `GroupChat.RequestExact` | astrbot/builtin_stars/astrbot/group_chat_context.py:172-187 | a request whose id is queued takes exactly what is before it, drops its own message and leaves the later ones |
| `GroupChat.ReplyGetsEarlier` | astrbot/builtin_stars/astrbot/group_chat_context.py:147-187 | the same over whole runs with fresh ids, in terms of arrivals |
| `GroupChat.DropsOwnIff` | astrbot/builtin_stars/astrbot/group_chat_context.py:174-187 | a request drops exactly one message uninjected, its own iff its id is still queued |
| `GroupChat.QueueIsRest` | astrbot/builtin_stars/astrbot/group_chat_context.py:147-187 | over every run with fresh ids the queue is the arrival log from a position on that is computed from the events alone |
| `GroupChat.StillQueuedIff` | astrbot/builtin_stars/astrbot/group_chat_context.py:147-187 | over every run with fresh ids an arrival is still queued iff since then fewer messages came than the maximum allows, nothing was reset, no later or equal arrival was replied to, and no stale index reached it |
| `GroupChat.ReplyDropsOwnIff` | astrbot/builtin_stars/astrbot/group_chat_context.py:172-187 | over every run with fresh ids a reply that cuts the queue drops its own message iff none of that has happened |
| `GroupChat.StaleIndexLosesMessage` | astrbot/builtin_stars/astrbot/group_chat_context.py:176-187 | a request whose message was trimmed away makes another message vanish uninjected |
| `LiveFeeder.RunAgentFeeder` | astrbot/core/astr_agent_run_util.py:515-575 | the queue receives the non-blank chunks and then exactly one end marker, also after a failure |
| `LiveFeeder.CutSentences` | astrbot/core/astr_agent_run_util.py:546-565 | the inner loop over the split parts |
| `LiveFeeder.FeedConserves` | astrbot/core/astr_agent_run_util.py:525-565 | after any deltas, cut chunks with the dropped blank ones in place, and the held text, concatenate to the input |
| `LiveFeeder.FeedShapes` | astrbot/core/astr_agent_run_util.py:544-565 | each chunk is a shortest run of whole sentences with at least ten characters, ending in a delimiter, and no such run is held back |
| `LiveFeeder.FeedCuts` | astrbot/core/astr_agent_run_util.py:538-565 | each delta cuts the text held back plus the new text exactly where a run of delimiters ends at ten characters or later since the last cut |
| `LiveFeeder.CutOnce` | astrbot/core/astr_agent_run_util.py:538-565 | and there is only one way to cut a text like that |
| `LiveFeeder.QueueConserves` | astrbot/core/astr_agent_run_util.py:515-575 | what is queued is the cut text in order, of which only blank pieces are missing, and after a failure also what was held back |
| `LiveFeeder.QueueShapes` | astrbot/core/astr_agent_run_util.py:515-575 | every queued text but the last has that shape; after a failure the last has it too |
| `Text.StripExact` | app/providers/manager.py:73-84 | stripping cuts off the whitespace at both ends and nothing else |
| `Numerals.NumeralOrder` | astrbot/cli/utils/version_comparator.py:27-43 | numbers are equal and ordered as their numerals are as texts: leading zeros do not count, a shorter one is lower, and of two of one length the one with the lower digit where they first differ |
| `VersionCompare.SplitPrerelease` | astrbot/cli/utils/version_comparator.py:80-90 | identifiers in order, numeric ones as numbers; None for no pre-release |
| `VersionCompare.SplitVersion` | astrbot/cli/utils/version_comparator.py:18-30 | numbers and identifiers of a match, no numbers without one |
| `VersionCompare.CompareVersion` | astrbot/cli/utils/version_comparator.py:8-77 | the loops with early returns compute the comparison the theorems are about |
| `VersionCompare.ComparePrereleases` | astrbot/cli/utils/version_comparator.py:51-75 | the identifier loop is the lexicographic comparison in which a proper prefix is lower |
| `VersionCompare.MatchExact` | astrbot/cli/utils/version_comparator.py:19-22 | the parser accepts exactly the language of the expression, with the same groups |
| `VersionCompare.CompareAntisymmetric` | astrbot/cli/utils/version_comparator.py:8-77 | on all strings: cmp(a, a) = 0 and cmp(a, b) = -cmp(b, a) |
| `VersionCompare.CompareTransitive` | astrbot/cli/utils/version_comparator.py:8-77 | on all strings: transitive, and equal only through equals |
| `VersionCompare.CompareZeroIff` | astrbot/cli/utils/version_comparator.py:35-77 | 0 iff the numbers agree up to trailing zeros and the pre-release lists are equal |
| `VersionCompare.UnmatchedIsZero` | astrbot/cli/utils/version_comparator.py:23-24 | what does not match compares like version 0 |
| `VersionCompare.FollowsSemver` | astrbot/cli/utils/version_comparator.py:8-77 | any two versions whose texts read the same without upper-case letters and v's are ordered by section 11 of Semantic Versioning 2.0.0, defined on the texts by the first difference, a missing number counting as 0; build metadata does not count |
| `VersionCompare.OrderedAsSemverIff` | astrbot/cli/utils/version_comparator.py:8-77 | a version is ordered as section 11 asks against all versions that read the same iff its pre-release has no upper-case letter and no v and its build metadata keeps a character other than v, or all its digits are 0 and it has no pre-release |
| `VersionCompare.TakenFor` | astrbot/cli/utils/version_comparator.py:15-24 | every version that does not read the same compares equal to one that does and that section 11 orders differently |
| `VersionCompare.NoneOrderedThroughout` | astrbot/cli/utils/version_comparator.py:15-24 | no version is ordered as section 11 asks against all others: each one that reads the same is misordered with one that does not |
| `VersionCompare.UpperCaseMisordered` | astrbot/cli/utils/version_comparator.py:15-16 | a pre-release that starts with an upper-case letter is misordered with every one whose first letter lies between its two cases |
| `VersionCompare.BetaBeforeRC` | astrbot/cli/utils/version_comparator.py:15-16 | 1.0.0-RC precedes 1.0.0-beta, but the code has it the other way round |
| `VersionCompare.OnlyVs` | astrbot/cli/utils/version_comparator.py:15-24 | a version whose pre-release or build metadata is nothing but v's is compared as version 0 |
| `VersionCompare.TaggedV` | astrbot/cli/utils/version_comparator.py:15-24 | every "1.2.3-v" and "1.2.3+v" is compared as version 0, and is ordered as section 11 asks against the versions that read the same only if it has a + and only zeros |

## Left out

- GeminiSchema.ConvertIdempotent: the iteration order of the set of supported fields is a parameter, one order for both conversions, since Python fixes it for a process.
- McpSchema.ListedExactly: does not list a flagged property named "required" that stands beside a property named "properties" of which something is lifted; the code loses that flag, as ShadowedIsMissing says.
- McpConnection.OwnershipHolds: assumes that no connect begins while a cleanup waits; the exact conditions, with any overlap, are in OwnedIff and CleanIff, and OverlapLosesTask is a run that breaks them.
- McpConnection.EndsIff: a task counts as ending once it is cancelled or has failed; how long its own clean-up takes is not modelled.
- SlidingWindow.RunIsExact: assumes clock readings in lock order, which the code does not enforce because it reads the clock before taking the lock; ExactIffInOrder says that nothing less will do.
- ConfigSaves.SavesLinearise: assumes that only saves change the dict; FileHoldsNewest and QuiescentCommit do not.
- OpenApi.RefsStillResolve: speaks of kept operations and components outside securitySchemes, whose references the code does not follow.
- WikiLinks.IterSegments: the spans of the two regular expressions are parameters, required only to be ordered, disjoint and in bounds; which text they match is not modelled.
- VersionCompare.CompareVersion: lower-casing is a parameter of which nothing is assumed, except in the comparison with Semantic Versioning, where it lowers ASCII text as usual and the versions spoken of have no letters outside ASCII that change. Python's limit on the length of integers it parses is not modelled.
- Checkpoints.BindCheckpointMessages: the validation of `tool_calls` is a parameter, required only to read its own dumps back; a history that raises has no result to speak of.
- ProviderKeys.DiscoverKeys: digits in variable names are ASCII digits; the lower-casing of provider names is done by the caller.
- FolderTree.GetFolderTree: assumes unique folder ids, which the database enforces (astrbot/core/db/po.py:112-129); the description of a folder is carried along only.
- GroupChat.StillQueuedIff: assumes fresh record ids, which the code draws as uuids.
- GroupChat.GroupChatContext.OnReqLlm: the two values an event carries are set together or not at all; formatting of messages and image captions happens before.
- LiveFeeder.RunAgentFeeder: the deltas are a finite list and a failure may end them; the task is not cancelled.
- Floating-point rounding: clocks, tokens, rates and cooldowns are reals.
- Aliasing of default values that the configuration repair inserts, and its updates of nested dicts in place: dicts are values there.
- Several configuration objects on one file, which do not share locks; and the temporary files, which are one atomic replacement here.
- `ToolSet.add_tool` and `merge`, the step bound and the buffer of `run_agent`, link target resolution, headers and metrics: they would add only easy members.
- Transports, HTTP, databases, prompt assembly, commands and the dashboard's user interface.
