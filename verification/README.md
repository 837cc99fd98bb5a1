# WolfStack protocols and state machines, verified

A Dafny 4.11 model of the parts of WolfStack in which correctness depends on whole runs rather than on one function:
protocols between nodes, registries shared by threads, secrets that rotate under a running process, limiters and
watchers, and the printers and parsers other parts rely on. `dafny verify dfyconfig.toml` checks everything.

Where the program updates state in place there is a class with the same fields, and each method is proved equal to a
specification function of the old state. Where several threads, nodes or process lifetimes interleave, those functions
are the steps of a state machine: a run is any sequence of actions, an action that cannot happen changes nothing, and a
theorem about every sequence is a theorem about every interleaving.

| modules | what they model |
|---|---|
| `SignedRequests`, `NonceCache`, `PeerProtocol` | Signed peer requests between any number of nodes with their own clocks, registries and replay caches, which restart, over a network that duplicates, delays, reorders and relays. |
| `Danger`, `DangerRuns` | The commit-confirmed registry and every interleaving of schedule, confirm, rollback and tick threads, one locked region a step. |
| `AtRest`, `AtRestRuns` | Credentials at rest: `v2:` framing, legacy XOR form, re-keying, and runs of writes, rotations that may be cut short anywhere, restarts and migrations. |
| `RateLimit` | The hourly alert cap with clock readings taken before the lock. |
| `JoinTokens`, `JoinTokenRuns` | Single-use join tokens under concurrent handlers that take, put back and use them. |
| `RouteAnnounce` | The route-announce loop, in time: one coalescing permit, a heartbeat and a rest after each announce. |
| `StorageWatch` | The storage watcher's edge-triggered alerts and the carry-forward of self-test verdicts. |
| `UnitHeal`, `UnitHealLaws` | The add-only rewriter of systemd units, from text to text. |
| `SqlDump`, `TablePages` | What a MySQL dump prints and how MySQL reads it back; pages by LIMIT and OFFSET. |
| `Ipv6`, `HostAddr` | IPv6 literals (section 2.2 of RFC 4291), `host:port` and URL hosts (section 3.2.2 of RFC 3986). |
| `Ports` | The listening ports chosen at start and what is written back to the ports file, over any number of starts. |
| `Wrappers`, `Text` | Option and Result; decimal numbers, trimming, joining. |

## What the proofs found

Each of these is a theorem about the code as it is, stated exactly or shown by a run; the comments and documentation in
the repository say otherwise or nothing.

- The replay window is half-open. The skew check still admits a request exactly 300 s old, the cache has just let go of
  its nonce, and the same request is accepted any number of times within that second, since what is recorded then is
  already expired (`ReplayAtTheBoundary`, `ReplayAnyNumber`; `ReplayHappens` gives a run for every number).
- The replay cache is process memory. A receiver that restarts inside the window accepts the same request again
  (`RestartForgets`, `RestartReplayHappens`).
- A completed dangerous operation is kept until 300 s after it was applied, not after it completed: one confirmed late is
  gone at the next tick (`SweepLeavesExactly`, `ConfirmedButGone`), and one with a deadline of 300 s or more is gone as
  soon as the tick that rolled it back returns (`LongDeadlinesVanishAtOnce`).
- Rotating the cluster secret re-keys six stores. TrueNAS, Unraid, Galera, Postgres HA and WolfScale also encrypt with
  the cluster secret but take no part, so their credentials are unreadable after a rotation and a restart; so is
  whatever a pass that was cut short had not reached (`RotationKeepsExactly`, `OneCredential`). Stores without a legacy
  form store an empty string while the key is stale (`WriteTakesIff`, `OneStaleWrite`).
- After the very first route announce there is no rest, so two announces can start in one instant
  (`FirstAnnounceHasNoFloor`); the rate bound `W / 10 + 2` already allows for it.
- A unit with two different absolute working directories in `[Service]` needs a second pass: healing is not idempotent
  there, and exactly there (`HealingTwice`, `TwoDirectoriesNeedTwoPasses`).
- The unit rewriter also turns carriage returns before newlines into nothing and ends the last line, so "add-only" holds
  for lines and not for bytes (`UndoIsExactIff`, `CarriageReturnIsLost`).
- Column names in a dump are printed between backticks without doubling, so a table with a backtick in a column name is
  not restored (`DumpRestoresTheRows`).
- Clock readings taken before the lock shorten the window the alert cap protects by exactly the skew when the cap is two
  or more, and not at all when it is one (`WindowBound`, `WindowBoundIsTight`, `OneSlotAnHour`).
- A fallback that lands on port 8554 reads as "never set" at the next start, which may then move once more
  (`SecondStartIsSameIff`, `MoveHappens`).
- The status port is chosen without regard to the api port and may take it (`StatusTakesApiIff`, `StatusTakesApi`).
- The Postgres reader computes its offset in 32 bits, so tables beyond 2^32 rows, rounded up to whole pages, have pages
  that repeat earlier rows (`OffsetWidths`, `PagesPartition`).

## Model

| member | source | states |
|---|---|---|
| SignedRequests.CanonicalInjective | src/node_identity.rs:225-227 | Two requests with the same signed text are the same request: node, timestamp, nonce and destination all agree, when node and nonce are free of newlines. |
| SignedRequests.ExpiryNeverOverflows | src/node_identity.rs:403-425 | Adding the window to a timestamp the skew check admitted stays within 64 bits for every admitted timestamp, if and only if the receiver's clock is two windows short of the maximum (or out of reach of any timestamp). |
| NonceCache.SeenNonces.NonceFresh | src/node_identity.rs:391-405 | Purge above 4096 entries, refuse a live nonce, otherwise record it; the answer does not depend on whether the purge happened. |
| NonceCache.PresentedAgrees | src/node_identity.rs:391-405 | One presentation, purging and overwriting as it may, keeps the cache in agreement at all later times with the full history of acceptances. |
| NonceCache.CacheRefinesHistory | src/node_identity.rs:391-405 | Over every run with a monotone clock the cache answers exactly like the history: some accepted use of the nonce has its timestamp plus 300 s still ahead. |
| PeerProtocol.StepKeepsInv | src/node_identity.rs:84-478 | Every action of every node, restarts included, and of the network keeps the global invariant relating caches, acceptances, pending handlers and signatures. |
| PeerProtocol.AcceptedRequestsAreGenuine | src/node_identity.rs:408-478 | In every run, an acceptance at node B under node A's key names A, is addressed to B, and is a request A signed with exactly that timestamp and nonce. |
| PeerProtocol.AcceptedAtMostOnce | src/node_identity.rs:391-478 | In every run, two acceptances with one nonce and destination are at the same node, and the later is decided no earlier than 300 s after the earlier's timestamp or after a restart in between: at most one acceptance cluster-wide inside the window, restarts aside. |
| PeerProtocol.ReplayDecision | src/node_identity.rs:391-405 | In every run, the replay check accepts a checked request if and only if no acceptance of its nonce at this node since it last started has a timestamp less than 300 s old. |
| PeerProtocol.GenuineRequestIsAccepted | src/node_identity.rs:258-478 | Nothing genuine is lost: in every run a request really signed for B by a peer whose key is pinned, arriving within the window with a nonce B has not used within it, is accepted. |
| PeerProtocol.ReplayAtTheBoundary | src/node_identity.rs:391-425 | In every run, an accepted request delivered again exactly 300 s after its timestamp is accepted again. |
| PeerProtocol.ReplayAnyNumber | src/node_identity.rs:391-425 | And not only once: in every run, that request delivered n more times within that one second is accepted n more times, for every n. |
| PeerProtocol.ReplayHappens | src/node_identity.rs:391-425 | For every n a run exists, with no restart, in which one request is accepted at second 0 and n more times at second 300. |
| PeerProtocol.RestartForgets | src/node_identity.rs:87-88 | The replay cache is process memory: in every run, a request already accepted, delivered again within the window after a restart of the receiver, is accepted once more. |
| PeerProtocol.RestartReplayHappens | src/node_identity.rs:87-88 | Such a run exists too: one request accepted twice in the same second with a restart between. |
| Danger.DangerRegistry.Schedule | src/danger.rs:91-117 | The new operation is pending with its own closure and counts as expired exactly from its deadline on, to the nanosecond; every other entry is as it was. |
| Danger.DangerRegistry.Confirm | src/danger.rs:123-139 | Exactly a pending entry becomes confirmed and loses its closure; the three other outcomes leave the registry alone. |
| Danger.DangerRegistry.BeginRollback | src/danger.rs:151-162 | First locked region of a rollback: exactly a pending entry is claimed and its closure handed out once. |
| Danger.DangerRegistry.FinishRollback | src/danger.rs:166-184 | The entry, if still listed, shows the closure's outcome and can be neither confirmed nor claimed any more; a swept entry is not brought back and no other changes. |
| Danger.DangerRegistry.ExpiredIds | src/danger.rs:203-212 | Lists every pending entry past its deadline, each once, and nothing else. |
| Danger.DangerRegistry.Sweep | src/danger.rs:221-225 | Only completed entries whose application is 300 s in the past go, no entry changes, and whatever was or will be expired stays so. |
| Danger.EarlierSweepsDoNotMatter | src/danger.rs:217-225 | A sweep leaves the same registry however often and whenever it ran before. |
| DangerRuns.StepKeepsInv | src/danger.rs:91-226 | Every step of every thread keeps the invariant: each rolling-back entry has one owner that carries its closure, and history agrees with every status. |
| DangerRuns.ClosureRunsAtMostOnce | src/danger.rs:143-165 | In every interleaving of any number of threads each closure runs at most once, and never for an operation that was confirmed. |
| DangerRuns.ConfirmedIsFinal | src/danger.rs:123-162 | Once an operation has read "confirmed" at any point of a run, its closure never runs and its status never changes. |
| DangerRuns.RolledBackMeansRunOnce | src/danger.rs:163-185 | An operation that reads "rolled_back" or "rollback_failed" had its closure run exactly once, with that status and message as its result. |
| DangerRuns.ClosureIsNeverMissing | src/danger.rs:161-165 | The "rollback closure missing" branch is unreachable: a thread past the first lock always carries the closure of its own operation. |
| DangerRuns.SecondLockFindsItsEntry | src/danger.rs:166-184 | The second lock always finds its own entry, still rolling back and owned by no other thread, whatever sweeps ran meanwhile. |
| DangerRuns.ListedForFiveMinutes | src/danger.rs:190-225 | In every interleaving an operation stays listed until 300 s after it was applied. |
| DangerRuns.OnlyOldCompletedOpsAreRemoved | src/danger.rs:217-225 | Only a sweep removes an operation, and only a completed one applied at least 300 s ago. |
| DangerRuns.TickMeetsDeadlines | src/danger.rs:199-226 | In every interleaving, whatever was pending and past its deadline at a tick's scan is no longer pending when that tick returns. |
| DangerRuns.LongDeadlinesVanishAtOnce | src/danger.rs:217-225 | In every run, an operation with a deadline of 300 s or more that a tick scanned as expired is listed after that tick's sweep if and only if it is still rolling back. |
| DangerRuns.SweepLeavesExactly | src/danger.rs:221-225 | In every run, an entry survives a tick's sweep, unchanged, if and only if it is pending, rolling back, or was applied less than 300 s ago, whenever it completed. |
| DangerRuns.ConfirmedButGone | src/danger.rs:119-139 | A run in which an operation is confirmed and the tick of the same instant drops it, against the five minutes the comment promises. |
| AtRest.OpenSealed | src/at_rest_crypto.rs:167-209 | A sealed value opens to its plaintext under its own key and under no other, through the prefix, nonce and tag framing. |
| AtRest.LegacyRoundTrip | src/dns_providers/mod.rs:412-437 | The legacy XOR form decodes to what was encoded and is never taken for a sealed value. |
| AtRest.CredentialStore.ReencryptAtRest | src/dns_providers/mod.rs:493-519 | Re-keys in place; the new store is loss-free against the old one, and the count returned is the number of fields that opened under the old secret. |
| AtRest.RekeyIsLossFree | src/at_rest_crypto.rs:259-283 | After any prefix of fields: what opened under the old secret opens to the same plaintext under the new one and no longer under the old, and every other field is byte-identical. |
| AtRest.RekeyResumes | src/at_rest_crypto.rs:259-283 | A pass stopped after any prefix and run again with the same secrets is exactly as loss-free as one never stopped. |
| AtRestRuns.StepKeepsInv | src/at_rest_crypto.rs:129-308 | Writing, saving a new secret, re-keying one field, cutting the pass short, restarting and migrating each keep what every field holds and under which secret. |
| AtRestRuns.SealedUnderTheDiskSecret | src/main.rs:615-621 | In every run of these, a sealed field of a re-keyed store that the current pass has reached, and no earlier pass cut short has left behind, is sealed under the secret now on disk, holds what was last written, and opens under no other key. |
| AtRestRuns.ManagedFieldReadsBack | src/at_rest_crypto.rs:129-308 | Such a field reads back as last written, except that a sealed one reads as empty while the cached secret is not the one on disk. |
| AtRestRuns.EveryFieldReads | src/at_rest_crypto.rs:293-308 | In every run, with rotations finished or cut short anywhere, every field of every store reads as last written if it is sealed under the cached secret, or is unsealed and its store has a legacy form, and otherwise as empty: never garbage, never the XOR decoding of a sealed value. |
| AtRestRuns.WriteTakesIff | src/at_rest_crypto.rs:151-161 | After any run, a credential just written reads back if and only if the process holds the secret on disk, or the store has a legacy form, or the credential is empty. |
| AtRestRuns.RotationKeepsExactly | src/secret_rotation.rs:282-344 | After any run, a rotation whose pass stops before any given field (or finishes) and a restart keep a sealed, non-empty credential if and only if its store takes part in the pass and the pass had reached it; otherwise it reads as empty. |
| AtRestRuns.OneCredential | src/secret_rotation.rs:287-294 | The runs exist: with one store, write, rotate and restart lose the credential when the store is outside the pass or the pass stops at once, and keep it otherwise. |
| AtRestRuns.OneStaleWrite | src/galera/mod.rs:231-233 | A run: a credential written between a rotation and the restart is kept if and only if its store has a legacy form. |
| AtRestRuns.CachedUntilRestart | src/at_rest_crypto.rs:61-74 | Whatever else happens, later `init` calls included, a process keeps the secret it has cached until it restarts. |
| AtRestRuns.FirstInitWins | src/at_rest_crypto.rs:63-70 | Over every run, what the process has cached is the secret that was on disk at its first `init` since it started, however often the disk changes and `init` is called after. |
| RateLimit.HourlyLimiter.TryAcquire | src/alerting.rs:173-189 | Trims the front of the queue, compares the 32-bit length with the cap, and pushes the reading exactly when it grants. |
| RateLimit.QueueFits32 | src/alerting.rs:184 | In every run the queue stays shorter than 2^32, so the cast never truncates. |
| RateLimit.WindowBound | src/alerting.rs:173-189 | With readings that run backwards by at most d in lock order and no cap above m, every closed window of one hour less d holds at most m granted slots. |
| RateLimit.WindowBoundIsTight | src/alerting.rs:173-189 | For every skew d and every cap m of two or more, a run puts m + 1 slots into a window one nanosecond longer. |
| RateLimit.OneSlotAnHour | src/alerting.rs:173-189 | With a cap of one no skew matters: whatever the readings, every closed hour holds at most one slot. |
| RateLimit.SlotTakenIff | src/alerting.rs:173-189 | With monotone readings a capped call is granted if and only if fewer than its cap were granted in the closed hour ending at it, counted over the full history. |
| RateLimit.CompromiseBypassesTheCap | src/alerting.rs:996-1018 | Removing every Compromise alert from any history changes no decision about any other alert, and each is dispatched exactly when alerting is on and has a channel. |
| JoinTokens.OneTimeTokens.Mint | src/cluster_join.rs:103-117 | The new token is valid up to one lifetime from now and not after, and no other token's validity changes. |
| JoinTokens.OneTimeTokens.Matching | src/cluster_join.rs:136-146 | A scan that never stops early finds the token if and only if it is stored and unexpired. |
| JoinTokens.OneTimeTokens.Take | src/cluster_join.rs:162-180 | Removes exactly the presented token and hands out its expiry, or takes nothing; an empty presentation does not even prune. |
| JoinTokens.OneTimeTokens.VerifyAndConsume | src/cluster_join.rs:126-153 | True exactly for a stored unexpired token, which is gone afterwards. |
| JoinTokens.OneTimeTokens.Reinsert | src/cluster_join.rs:184-193 | A token that was taken out is valid again up to exactly the expiry it came with, and no other token's validity changes. |
| JoinTokens.OneTimeTokens.PendingCount | src/cluster_join.rs:197-210 | The number of tokens valid at this moment; counting changes the validity of none, now or later. |
| JoinTokenRuns.StepKeepsInv | src/cluster_join.rs:103-210 | Every step of every handler keeps each token in one place with its expiry tied to when it was minted. |
| JoinTokenRuns.TokenIsInOnePlace | src/cluster_join.rs:155-193 | In every interleaving a token is in the pool, with one handler, or gone: never in two, used at most once, and nowhere once used. |
| JoinTokenRuns.ExpiryNeverMoves | src/cluster_join.rs:182-193 | After any number of take and put-back cycles a token's expiry is exactly its mint time plus the lifetime. |
| JoinTokenRuns.GoneForGood | src/cluster_join.rs:103-193 | A token neither stored nor held stays so for the rest of every run and is used no more. |
| JoinTokenRuns.SecondTakeFails | src/cluster_join.rs:155-180 | While one handler holds a token, no other handler's take of it succeeds. |
| JoinTokenRuns.PruningIsInvisible | src/cluster_join.rs:207-210 | Over every run the pruned pool gives the same takes, uses, valid tokens and pending count as a map that is never pruned and read with an expiry test. |
| RouteAnnounce.StepKeepsInv | src/main.rs:2062-2105 | Every step of the loop, of time and of route changes keeps the timing, spacing and per-change invariant. |
| RouteAnnounce.NoLostWakeUp | src/main.rs:2094-2104 | However changes interleave with announcing and resting, each has an announce that started after it, or its notification is still stored. |
| RouteAnnounce.EveryChangeIsAnnouncedInTime | src/main.rs:2094-2104 | Once one announce, one interval and two late wake-ups have passed since a change, an announce that started after the change, within that time, has happened. |
| RouteAnnounce.TimeCanPass | src/main.rs:2094-2104 | No reachable state is stuck: the loop can step or time can pass, so the timed claims are not vacuous. |
| RouteAnnounce.LoopAnnouncesAreSpaced | src/main.rs:2092-2103 | Announces of the loop start at least ten seconds apart, any two of them by ten seconds for each step between. |
| RouteAnnounce.AnnounceRate | src/main.rs:2066-2104 | Any window of W holds at most W / 10 s + 2 announce starts, the first announce included. |
| RouteAnnounce.FirstAnnounceHasNoFloor | src/main.rs:2066-2104 | A run exists in which the first announce and the first of the loop start in the same instant. |
| StorageWatch.Watcher.CheckConditions | src/main.rs:1507-1520 | The observed keys, and an alert for each observation whose key was not in the last pass. |
| StorageWatch.Watcher.CheckSelfTests | src/main.rs:1682-1698 | The keys of explicit failures, and an alert for each that was not marked before. |
| StorageWatch.Watcher.OnePass | src/main.rs:1485-1818 | One pass with its carry-forward of self-test verdicts, whole on non-hourly passes and for untested disks on hourly ones. |
| StorageWatch.KeysDoNotMix | src/main.rs:1514-1518 | No other key is ever taken for a self-test key, and self-test keys tell devices apart. |
| StorageWatch.ConditionAlertsOnRisingEdge | src/main.rs:1507-1818 | Over every trace, a condition outside the self-tests alerts once for each observation on exactly those passes whose predecessor did not observe it. |
| StorageWatch.SelfTestAlertsCountFailingRuns | src/main.rs:1514-1709 | Over every trace, a disk's self-test alerts number exactly the maximal failing runs in the subsequence of passes that tested it. |
| UnitHeal.MakePlan | src/main.rs:5248-5262 | The first scans find a kill mode, the first plain absolute working directory and an existing mkdir line. |
| UnitHeal.HealLine | src/main.rs:5266-5288 | What one line becomes, and which changes it reports. |
| UnitHeal.HealUnitContent | src/main.rs:5247-5294 | The loop over text equals the line-by-line specification the laws are about. |
| UnitHealLaws.HealedIff | src/main.rs:5247-5294 | Something is rewritten if and only if a service section lacks a kill mode or a line in it sets the first absolute working directory. |
| UnitHealLaws.HealingTwice | src/main.rs:5247-5294 | Healing a healed unit, as text, does nothing if and only if no second, different absolute directory inside `[Service]` is next in line. |
| UnitHealLaws.HealingIsIdempotent | src/main.rs:5498-5499 | Every unit that names at most one absolute working directory is healed once and for all. |
| UnitHealLaws.TwoDirectoriesNeedTwoPasses | src/main.rs:5251-5257 | A three-line unit is healed, and its healed text is healed again. |
| UnitHealLaws.UndoGivesBackTheUnit | src/main.rs:5266-5292 | Add-only, from text to text: for every unit, deleting the inserted lines and the added "-" from the lines of the healed text gives back the original lines in order, without carriage returns and the rewritten ones in canonical spacing. |
| UnitHealLaws.UndoIsExactIff | src/main.rs:5266-5292 | The text so restored is byte for byte the original if and only if the rewritten lines had that spacing, no line was already tolerant, and every line ended in a newline without a carriage return. |
| UnitHealLaws.CarriageReturnIsLost | src/main.rs:5266-5282 | A one-line unit that ends in a carriage return and a newline is healed, and does not come back byte for byte. |
| UnitHealLaws.PlainNewlinesIff | src/main.rs:5266-5282 | Splitting a text into lines and writing each with a newline gives back the text if and only if all its lines end in plain newlines. |
| SqlDump.MysqlEscapeString | src/mysql_editor.rs:364-379 | The escaping loop equals the per-character escape the reading theorems are about. |
| SqlDump.DumpRows | src/mysql_editor.rs:600-623 | The data section of a table, statement by statement. |
| SqlDump.ValueReadsBack | src/mysql_editor.rs:364-379 | Every optional string, printed and read by MySQL's string-literal rules, reads back as itself and ends exactly at its own closing quote. |
| SqlDump.QuotedNameReadsBack | src/mysql_editor.rs:617-618 | Every name printed with doubled backticks reads back as itself. |
| SqlDump.RawNameReadsBackIff | src/mysql_editor.rs:602-606 | A column name, printed undoubled, reads back as itself and ends at its own backtick if and only if it holds none; with one it never reads as itself, wherever the reading ends. |
| SqlDump.NameListReadsBackIff | src/mysql_editor.rs:602-606 | The printed column list reads back as the same list if and only if no name holds a backtick. |
| SqlDump.ValuesReadBack | src/mysql_editor.rs:609-620 | For every list of optional strings, the printed VALUES list reads back as the same list and stops at its own parenthesis. |
| SqlDump.InsertReadsBack | src/mysql_editor.rs:617-620 | For every table name, columns, row and following text, a printed INSERT reads back as the same statement if and only if no column name holds a backtick. |
| SqlDump.DumpRestoresTheRows | src/mysql_editor.rs:600-623 | Reading the whole data section gives back exactly the rows, in order, if and only if there are none or no column name holds a backtick. |
| TablePages.PagesPartition | src/mysql_editor.rs:457-481 | Pages 0 to total - 1 joined are every row once and in order when no offset wraps; for distinct rows every page is right exactly then. |
| TablePages.OffsetsFitIff | src/mysql_editor.rs:457-481 | In an integer of any range, no offset of a table wraps if and only if its rows are at most that range rounded up to whole pages. |
| TablePages.OffsetWidths | src/mysql_editor.rs:1047-1055 | In 64 bits every table with a 64-bit row count is safe; in 32 bits, as the Postgres reader computes, exactly tables of up to 2^32 rows rounded up to whole pages. |
| Ipv6.LiteralShape | src/netaddr.rs:25 | Every string that parses as an IPv6 address is hex digits, colons and dots with at least two colons. |
| HostAddr.BracketIsIdempotent | src/netaddr.rs:23-30 | Bracketing a bracketed host changes nothing, for every string. |
| HostAddr.BindForms | src/netaddr.rs:23-37 | Every host holding an IPv6 literal is printed with that literal in brackets, and every host without a colon exactly as given, with any port. |
| HostAddr.StripPortUndoesHostPortIff | src/netaddr.rs:35-86 | For every string and port, stripping the port of the printed form gives back the host if and only if it is a literal with no space around it, or a host without leading space or bracket pair that does not become a literal with the port. |
| HostAddr.UsualHostsComeBack | src/netaddr.rs:35-86 | In particular for every IPv6 literal, IPv4 address and colon-free name that starts with neither a bracket nor a space. |
| HostAddr.HostOfUrlIff | src/node_identity.rs:275-285 | For every colon-free scheme, port and path, the host of the printed URL is the host if and only if it is an IPv6 literal or free of slashes, colons and a leading bracket. |
| Ports.PortsFile.ReconcileBakedPort | src/ports.rs:99-115 | Seeds exactly the fields still at their defaults, and reports a change exactly when there is one. |
| Ports.PortsFile.ReserveStatusPort | src/ports.rs:279-298 | The preferred port if free, else the first free one of the range, written back only when it may be. |
| Ports.PortsFile.ReserveInterNodePort | src/ports.rs:304-325 | The same, also avoiding the claimed ports. |
| Ports.PortsFile.Start | src/main.rs:717-748 | One whole start: what is bound and the file afterwards. |
| Ports.InterPortAvoidsClaims | src/ports.rs:304-325 | The inter-node port is free and clear of the api and status ports if and only if the preferred port or some port of the range is; a usable preferred port is kept. |
| Ports.StatusTakesApiIff | src/main.rs:743-748 | Exactly when the status port takes the api port, over the configured status port, the api port and the taken ports. |
| Ports.ThreePortsDistinctIff | src/ports.rs:279-325 | The three ports are distinct if and only if the status port has not taken the api port and the preferred inter-node port is neither of them or some port of its range is free and unclaimed. |
| Ports.StatusTakesApi | src/ports.rs:279-298 | A start with 8550 to 8552 taken on which api and status both get 8553, and the file keeps it. |
| Ports.ManualStartsLeaveNoTrace | src/ports.rs:226-271 | After any sequence of starts the file is as if the manual ones had never happened. |
| Ports.ReconcileTwice | src/ports.rs:99-115 | Reconciling is a fixpoint. |
| Ports.NextStartReconcilesIff | src/ports.rs:99-115 | After a service start something is left to reconcile if and only if it fell back to 8554 from another port. |
| Ports.SecondStartIsSameIff | src/ports.rs:141-325 | In unchanged surroundings a second start binds the same ports unless, exactly, the configured inter-node port is not 8554 and not usable, 8554 is, and the port after the baked one is usable and is not 8554. |
| Ports.MoveHappens | src/ports.rs:99-115 | Such a start: a scan lands on 8554, and the next start, with nothing else changed, moves to the port after the baked one. |
| Ports.EveryLaterStartIsSame | src/ports.rs:141-325 | From the second start on, every start binds the same ports, and those of the first under that same condition. |

## Left out

- Cryptography is ideal: a signature verifies under a node's key only on what that node signed, a sealed value opens only
  under its own key, key derivation is injective, and base64 is any injective encoding without ':'. The laws
  assumed of these can be met together (AtRest.SomeCryptoIsLawful).
- Randomness: ids, nonces and tokens are taken to be fresh; a token compares equal only to itself.
- HTTP, JSON files, file permissions, alert delivery and alert texts; a save is one atomic update.
- PeerProtocol: node clocks never step backwards, and stop two windows short of the 64-bit maximum, where
  ExpiryNeverOverflows is exact; the lookup of a destination from an address, the last-verified record and the
  per-request cache of the outcome are not modelled.
- DangerRuns: closures that panic, and a poisoned mutex.
- AtRestRuns: each field is re-keyed in one step. Loading and saving a whole store are not modelled as two steps, so
  neither is a write lost to a pass that loaded before it and saved after it, nor the reverse, in which a store loaded
  before the pass and saved after it puts every field of that store back under the old secret. Plaintext is bytes, so
  lossy UTF-8 decoding is not modelled either.
- The own encryption schemes of SQL connections, OIDC and the integration vault in the rotation pass.
- RateLimit: quiet-hours window arithmetic and time zones are one given answer; cooldowns and history are not modelled.
- JoinTokenRuns: the reusable static join token and the bootstrap grants' own handlers.
- StorageWatch: what the disks and arrays report is the input of a pass; starting self-tests is not modelled.
- UnitHeal: writing the unit file and reloading systemd.
- SqlDump: the reader follows MySQL's default mode, not NO_BACKSLASH_ESCAPES; table definitions come from the server.
- TablePages: rows keep their order between two page queries; rejection of unsafe identifiers.
- HostAddr: canonical forms of IPv4-mapped addresses.
- Ports: a free port is one not in a given set; saves that fail are not modelled.
- The icon resolution cache, and everything that only wraps system tools.
