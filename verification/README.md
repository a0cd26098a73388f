# Models of Looper's stateful logic

Looper is a daemon that runs coding agents against GitHub repositories. This project
models the parts of it where correctness depends on more than one step (path
resolution, pushing, supervising processes, polling, caching, editing trees and
parsing) and proves what they keep over every input and every run. Each module stands
for one source file; state that the source updates in place is a class whose methods
are proved against a specification function, and the results are lemmas about that
function.

| module | models |
|---|---|
| `FileSystem`, `SymlinkResolver`, `WorktreeSafety`, `DirectoryTree` | the kernel's pathname walk, `resolve_symlinks`, the worktree path checks, where a path leads in the tree of directories |
| `PushProtocol` | interleaved `push` calls against one remote |
| `RunLoop` | timeouts and signal escalation of one agent execution |
| `EventStream`, `EventDelivery` | the server-sent event polling tasks; which events they send, again or at all |
| `ForwarderSupervisor` | webhook forwarder processes, respawn and backoff |
| `CircuitBreaker` | the breaker against its call history |
| `DiffIndex` | the unified-diff parser and anchor validator |
| `WorktreeList` | the parser of `git worktree list --porcelain` |
| `ConfigTree` | dotted-path set and unset, recursive merge |
| `AgentEnv` | the layered environment and its list form |
| `DiscoveryCache` | the TTL cache and the interleaved list calls that read through it |
| `UriEncoding` | percent-encoding |
| `Text`, `Wrappers` | the string operations of the Rust library, results |

## Where the code differs from what is said about it

- The polling tasks are written for a query that returns newer records
  (`crates/looper-api/src/sse.rs:35-58`), but the query selects records at or after the
  cursor (`crates/looper-storage/src/repos/events.rs:74`), and time stamps are whole
  seconds (`crates/looper-storage/src/eventlog.rs:10-12`) that whole batches of events
  share (`crates/looper-storage/src/middleware.rs:126-145`). So each poll sends the
  cursor's second again (`ResendsTheSecond`, `InclusiveRepeatsIff`), and once 200 other
  events share a second the stream may never get past it (`StallIsForever`,
  `DeliveredIff`). In a log written in order nothing else is lost (`NothingIsLost`). A
  strict query would repeat nothing but lose events that share a second; `StepMissesIff`
  and `MissedIff` say exactly which runs lose one.
- The check "path must be under root" compares strings
  (`crates/looper-git/src/safety.rs:71`). It also accepts paths at or below a sibling
  whose name starts with the root's name, and paths that leave the root by "..":
  `AcceptedExactly`, `AcceptedLiesBelowRoot`, `SiblingIsAccepted`, `DotDotIsAccepted`,
  `AcceptedOutsideTheRoot`. `AcceptedInTreeIff` says exactly which accepted directories
  do lie in the root's tree.
- The path must not be the repository or the root, but those checks compare resolved paths
  (`crates/looper-git/src/safety.rs:52,65`), which keep "..". With the repository or root
  "/x", the path "/x/y/.." is accepted and is that very directory: `RepositoryIsAccepted`;
  `AcceptedIsRepoIff` and `AcceptedInTreeIff` give the exact condition. Without ".." in
  the resolved paths the checks are right, siblings apart: `PlainPathsAreJudgedRight`.
- Resolution drops "." segments and trailing slashes, in the path and in link targets.
  A path that is invalid because its walk arrives at a plain file with such a segment
  left resolves to that file (`TrailingSlashIsForgotten`, `SlashInTargetIsForgotten`);
  `MeaningKeptIff` shows that this is the only way in which a meaning is lost.
- The half-open breaker is documented to let a single probe through
  (`crates/looper-infra/src/circuit_breaker.rs:86`); it lets every one through:
  `EveryProbeIsLetThrough`.
- `stop_forwarder` leaves an entry behind that `reconcile` never restarts
  (`StoppedStaysStopped`), and `start_forwarder` on a live entry loses its process
  (`RestartLosesTheChild`, `NoProcessIsLost`).
- All lines of a file count towards its first hunk (`crates/diffanchor/src/lib.rs:107-120`),
  so of every later hunk the validator accepts only the first line, and behind the first
  hunk lines that are not in the diff (`AcceptedLines`, `NewSideAcceptedIff`).
- The cache key leaves out part of the query (`OwnAnswersIff`, `AnswersFitTheKey`) and
  does not separate fields that contain "|" (`BarsCollide`). The cache is not locked
  between a lookup and the store that follows it, so an overlapping call can put an
  older list over a newer one (`StaleAnswer`); three calls for one slot are enough for that, and needed
  (`NewestAnswersIff`).
- An environment key that contains "=" does not survive the list form
  (`RebuildIffPlainKeys`).

## Assumptions

- The file system does not change during one resolution. A file system is any graph of
  inodes; ".." entries may lead anywhere, links may form cycles, and the kernel's own
  limit on links is a parameter. Paths are absolute by the time they are resolved; a
  relative one is joined to the working directory first.
- `DirTree`: every directory but the root has one parent, to which its ".." leads, and one
  name there. Only the lemmas that compare inodes through ".." assume it.
- Each worktree's HEAD stays fixed between the check and the push of one call. A plain
  push is fast-forward only, a lease compares and swaps, and a branch that is already
  at HEAD is up to date. Commits are numbered with parents first.
- The event log only grows, and record ids are unique. Stamps are numbers, ordered like
  the stored strings; any number of events may share one, events may be appended with
  older stamps, and the query may answer equal stamps in any order, a different one each
  time. Lemmas about logs written in order say so.
- Monotonic clocks do not go back; the wall clock behind the idle time may read
  anything. Durations and times are unbounded naturals.
- Each lookup and each store of the discovery cache is one step; between them the calls
  of all threads interleave in any way.
- Spawning, waiting, `gh` and the clock are parameters or nondeterministic steps.
  Processes are numbered by spawn, so numbers are never reused.

## Model

| member | source | states |
|---|---|---|
| SymlinkResolver.ResolveSymlinks | crates/looper-git/src/safety.rs:100-139 | the recursive method with its component loop ends on every link graph and computes the resolution that the lemmas are about |
| SymlinkResolver.ResolvedIsLinkFree | crates/looper-git/src/safety.rs:120-138 | on success no prefix of the result is a link and no "." is left |
| SymlinkResolver.ResolveIsIdempotent | crates/looper-git/src/safety.rs:100-139 | resolving a result again, at any permitted depth, returns it unchanged |
| SymlinkResolver.LinkWalk | crates/looper-git/src/safety.rs:107-117 | following a link by joining its target to the parent costs the kernel's walk exactly one link less, an absolute target also saves the links of the parent |
| SymlinkResolver.CleanWalk | crates/looper-git/src/safety.rs:121-135 | dropping every "." from a path and from all link targets changes the kernel's walk exactly where it arrives at a non-directory with only "." left: there it succeeds instead |
| SymlinkResolver.ResolveSimulates | crates/looper-git/src/safety.rs:100-139 | whenever resolution succeeds the kernel's walk of the input ends, agrees with the link-free walk of the result on every directory and every inode found, and has the same end if and only if it does not stop on a "." |
| SymlinkResolver.ResolvePreservesMeaning | crates/looper-git/src/safety.rs:100-139 | the result names the inode that the input names, reached without following a link; for directories input and result name the same ones |
| SymlinkResolver.ResultIgnoresDots | crates/looper-git/src/safety.rs:100-139 | the result names exactly what the path names in the file system whose paths and link targets have no "." |
| SymlinkResolver.MeaningKeptIff | crates/looper-git/src/safety.rs:100-139 | path and result name the same inodes, files and missing ones included, if and only if the walk of the path never stops on a "." behind a non-directory |
| SymlinkResolver.DotFreeKeepsMeaning | crates/looper-git/src/safety.rs:100-139 | without "." in the path and in link targets the two always name the same inodes |
| SymlinkResolver.TrailingSlashIsForgotten | crates/looper-git/src/safety.rs:121-135 | behind a plain file a trailing slash is dropped, and the invalid path becomes a valid one |
| SymlinkResolver.SlashInTargetIsForgotten | crates/looper-git/src/safety.rs:107-117 | a link whose target is a plain file with a trailing slash dangles, and resolves to the file |
| SymlinkResolver.ResolveSucceeds | crates/looper-git/src/safety.rs:100-105 | every path whose walk ends within 255 links, found or not, is resolved |
| SymlinkResolver.ChainIsResolvedIff | crates/looper-git/src/safety.rs:100-117 | a chain of links is resolved to its end if and only if it has at most 255 links |
| SymlinkResolver.CyclesAreRefused | crates/looper-git/src/safety.rs:101-105 | a path caught in a link cycle is always refused with the depth error |
| WorktreeSafety.RenderedPrefix | crates/looper-git/src/safety.rs:71-75 | the string prefix test, component by component |
| WorktreeSafety.TextualTest | crates/looper-git/src/safety.rs:65-75 | the test passes exactly for descendants of the root and for paths at or below a sibling whose name extends the root's |
| WorktreeSafety.AcceptedExactly | crates/looper-git/src/safety.rs:40-79 | for every combination of given paths: accepted if and only if not empty, with a resolved path that differs from the repository's and from the root's and is behind a non-empty root's in the sense of the textual test |
| WorktreeSafety.VerdictWithinLimits | crates/looper-git/src/safety.rs:40-97 | on every input whose paths can be walked within 255 links, found or not, the verdict is never "too deep" but the first complaint that applies: empty, the repository, empty root, the root, not under the root |
| WorktreeSafety.AcceptedLiesBelowRoot | crates/looper-git/src/safety.rs:40-76 | with or without a repository given, an accepted path names an inode in the tree below the root's inode, unless it uses an extended sibling name or a ".." behind the root |
| WorktreeSafety.AcceptedInTreeIff | crates/looper-git/src/safety.rs:59-76 | an accepted directory lies in the root's tree if and only if its resolved path, with ".." taken out, goes on from the root's; it is the root if and only if the two are equal |
| WorktreeSafety.AcceptedIsRepoIff | crates/looper-git/src/safety.rs:48-57 | an accepted directory is the repository all the same if and only if the two resolved paths are equal once ".." is taken out |
| WorktreeSafety.PlainPathsAreJudgedRight | crates/looper-git/src/safety.rs:40-79 | without ".." in the resolved paths a directory reached within 255 links is accepted if and only if it is neither the repository nor the root and lies in the root's tree or behind an extended sibling |
| WorktreeSafety.RepositoryIsAccepted | crates/looper-git/src/safety.rs:52-67 | "/x/y/.." is accepted next to the repository "/x" and under the root "/x", and is that directory |
| DirectoryTree.NormalWalk | crates/looper-git/src/safety.rs:121-138 | a resolved path and its lexical normal form lead to the same inode |
| DirectoryTree.OnePathPerDir | crates/looper-git/src/safety.rs:71 | a directory has one path of names |
| WorktreeSafety.SiblingIsAccepted | crates/looper-git/src/safety.rs:71 | next to root "x" the path "x" plus any suffix is accepted |
| WorktreeSafety.DotDotIsAccepted | crates/looper-git/src/safety.rs:71 | a path that leaves the root by ".." is accepted |
| WorktreeSafety.AcceptedOutsideTheRoot | crates/looper-git/src/safety.rs:71 | in a file system with two directories side by side either kind of path is accepted and names the directory that is not in the root's tree |
| PushProtocol.AncestorIff | crates/looper-git/src/gateway.rs:365 | a commit is an ancestor if and only if a chain of parents leads back to it |
| PushProtocol.StepKeepsInv | crates/looper-git/src/gateway.rs:357-392 | every check or push step keeps: checked pushers are entitled, every move is paid for by its lease, moves of a branch are ordered and reachable |
| PushProtocol.RunKeepsInv | crates/looper-git/src/gateway.rs:357-392 | the same over every interleaving of any number of pushers |
| PushProtocol.BranchesOnlyAdvance | crates/looper-git/src/gateway.rs:363-389 | over every interleaving a remote branch is never deleted and only moves to descendants |
| PushProtocol.NoCommitIsLost | crates/looper-git/src/gateway.rs:363-389 | every commit that ever headed a branch stays reachable from it |
| PushProtocol.ProtectedBranchesStay | crates/looper-git/src/safety.rs:9-14 | a branch that all its pushers list as protected never moves and is never created |
| PushProtocol.LeaseIsWonOnce | crates/looper-git/src/gateway.rs:381-386 | no two moves of one branch start from the same commit or end at the same one |
| PushProtocol.RivalLeases | crates/looper-git/src/gateway.rs:363-386 | of the leased pushers that expect the same head of a branch at most one moves it, once |
| PushProtocol.UndisturbedPush | crates/looper-git/src/gateway.rs:357-392 | without interference a push lands if and only if the guard, the ancestor check and the lease or fast-forward hold; then the branch is at HEAD, otherwise the remote is unchanged and the refusal says why, with the expected and the actual head of the branch |
| PushProtocol.RemoteIsReplay | crates/looper-git/src/gateway.rs:381-389 | the remote is its start state with the logged moves replayed, nothing else changes it |
| PushProtocol.LeaseAloneIsNotEnough | crates/looper-git/src/gateway.rs:365-379 | the lease by itself would accept a HEAD that drops the expected commit; the ancestor check refuses it |
| RunLoop.Execution.CheckTimeouts | crates/looper-agent/src/executor.rs:579-620 | the two timeout branches carry out the specified stages; a signal is sent only if the process id is known |
| RunLoop.Execution.CheckEnd | crates/looper-agent/src/executor.rs:627-651 | escalation or exit as specified, with the recorded status |
| RunLoop.Execution.RunLoop | crates/looper-agent/src/executor.rs:578-720 | the loop computes the specified run and stops only at a result |
| RunLoop.IterationFlags | crates/looper-agent/src/executor.rs:579-651 | one iteration fires the idle timeout exactly if the idle time reaches it and it is at least a second, the other one exactly at max runtime, records type and time of the last one fired, and ends the loop exactly on an elapsed grace period or an exit |
| RunLoop.IterationSends | crates/looper-agent/src/executor.rs:601-633 | the signals of one iteration: SIGTERM per timeout fired in it, SIGKILL on an elapsed grace period, none without a process id |
| RunLoop.FiredIff | crates/looper-agent/src/executor.rs:587-607 | in a running loop the idle timeout has fired if and only if an idle time of at least the timeout was measured, and the max runtime if and only if a reading was at or after it |
| RunLoop.IterationStaysOnSchedule | crates/looper-agent/src/executor.rs:579-636 | one more iteration keeps the grace timer within its bound, the idle restart included |
| RunLoop.LoopEndsInTime | crates/looper-agent/src/executor.rs:576-720 | every iteration that is carried out is over by start + max runtime + 2 * graceful + 3 * gap |
| RunLoop.LoopEndsSoonerWithoutIdle | crates/looper-agent/src/executor.rs:576-720 | as long as the idle timeout has not fired every iteration is over by start + max runtime + graceful + 2 * gap |
| RunLoop.NoResultMeansEarly | crates/looper-agent/src/executor.rs:576-720 | given an iteration beyond that time the loop has ended, whatever the child does |
| RunLoop.OneGracePeriodIsNotEnough | crates/looper-agent/src/executor.rs:587-605 | a run in which the idle timeout restarts the grace timer and the loop outlives max runtime + graceful + 2 * gap |
| RunLoop.SignalsAreDisciplined | crates/looper-agent/src/executor.rs:601-635 | in every run the grace timer is set exactly when a timeout fired; SIGKILL is sent at most once, last, and a full grace period after every timeout SIGTERM, and then the status is "timeout"; without a process id no signal is sent |
| RunLoop.StatusTellsTheRun | crates/looper-agent/src/executor.rs:643-651 | the recorded status is determined by the whole run: timeout if an idle time or a reading ever reached its limit, else killed if the flag was ever seen, else by the child's exit |
| RunLoop.Capture | crates/looper-agent/src/executor.rs:524-543 | the buffer is a prefix of whole reads, all of the stream or at least the limit, and overshoots by less than one read; every read is a heartbeat |
| EventStream.Stream.PollProject | crates/looper-api/src/sse.rs:35-83 | one poll sends the first 200 records in scope, oldest first, and moves the cursor to the newest sent |
| EventStream.Stream.PollAll | crates/looper-api/src/sse.rs:102-135 | the same for the stream of all events |
| EventStream.AnswerIsDue | crates/looper-storage/src/repos/events.rs:73-82 | whatever order the query gives equal stamps, its answer in scope read backwards is every event since the cursor, each once, oldest first |
| EventStream.PollStep | crates/looper-api/src/sse.rs:43-83 | a successful poll sends the first 200 of those and leaves the cursor on the stamp of the last one sent |
| EventStream.BatchWrittenOut | crates/looper-api/src/sse.rs:43-61 | due are exactly the events of the project, or all, since the cursor; the batch is the first 200 of them |
| EventStream.OnlyItsProject | crates/looper-api/src/sse.rs:54-57 | over every run a project's stream sends events of that project only |
| EventStream.AllOfItsProject | crates/looper-api/src/sse.rs:54-83 | over every run in order every event of the project, or of all, before the cursor's second has been sent |
| EventStream.RunKeepsInv | crates/looper-api/src/sse.rs:30-85 | over every run only events in scope are sent, none newer than the cursor, and the first sendings are in stamp order |
| EventStream.StepMissesIff | crates/looper-api/src/sse.rs:30-85 | an action makes an event unreachable if and only if it appends one behind the cursor or, with a strict query, its batch ends inside a second |
| EventStream.MissedIff | crates/looper-api/src/sse.rs:30-85 | over every run no event is missed if and only if no action does that |
| EventStream.MissedForGood | crates/looper-api/src/sse.rs:57-59 | a missed event is never sent later |
| EventStream.InOrderLosesNothing | crates/looper-storage/src/eventlog.rs:10-12 | in a log appended in order the inclusive query loses nothing, the strict one nothing if the stamps differ |
| EventStream.NothingIsLost | crates/looper-api/src/sse.rs:30-85 | over every run in order, ties or not, everything before the cursor's second has been sent, nothing beyond it, in stamp order |
| EventStream.DistinctStampsAreExact | crates/looper-api/src/sse.rs:30-85 | corollary for distinct stamps: with either query exactly the events up to the cursor have been sent, in order |
| EventDelivery.ResendsTheSecond | crates/looper-storage/src/repos/events.rs:73-82 | of the events sent before, a poll sends again exactly those of the cursor's second with the inclusive query, as long as that second fits into one batch, and never any other |
| EventDelivery.InclusiveRepeatsIff | crates/looper-storage/src/repos/events.rs:73-82 | over every run an event is sent twice only if a successful poll follows one that sent something; as long as no second holds more than 200 events in scope, if and only if |
| EventDelivery.MustRepeatIff | crates/looper-api/src/sse.rs:43-50 | after something was sent, a poll has to repeat, whatever order ties come in, if and only if fewer than 200 events of the cursor's second are unsent |
| EventDelivery.StrictNeverRepeats | crates/looper-api/src/sse.rs:57-59 | a strict query never sends an event twice |
| EventDelivery.PollsDrainTheLog | crates/looper-api/src/sse.rs:14-15 | if no second on the way to an event holds more than m others, k polls deliver it as soon as 200 - m times k covers what is pending up to it, while the log grows; 200 each with a lossless strict query |
| EventDelivery.StallIsForever | crates/looper-api/src/sse.rs:45-50 | once 200 events in scope share a second that the cursor has not passed, no run ever sends anything newer |
| EventDelivery.DeliveredIff | crates/looper-api/src/sse.rs:30-85 | in a log that no longer grows, an event is sure to be sent after some number of polls, whatever order ties come in, if and only if no second from the cursor's to its own holds 200 others |
| ForwarderSupervisor.StartKeepsInv | crates/looper-infra/src/forwarder_supervisor.rs:71-91 | starting keeps the account of processes and counters |
| ForwarderSupervisor.StopKeepsInv | crates/looper-infra/src/forwarder_supervisor.rs:93-101 | stopping keeps it |
| ForwarderSupervisor.ExitKeepsInv | crates/looper-infra/src/forwarder_supervisor.rs:146-166 | handling an exit, with or without a respawn, keeps it |
| ForwarderSupervisor.NoProcessIsLost | crates/looper-infra/src/forwarder_supervisor.rs:71-170 | over every run of reconcile, stop and start the unreaped processes are exactly the live children in the map if and only if no start hit a live entry; one repository each always |
| ForwarderSupervisor.RestartLosesTheChild | crates/looper-infra/src/forwarder_supervisor.rs:79-89 | a start loses a process if and only if the entry is live, and that process stays running and unaccounted for |
| ForwarderSupervisor.LiveAfterIff | crates/looper-infra/src/forwarder_supervisor.rs:110-170 | a repository that is neither stopped nor dropped nor restarted ends with a live entry if and only if it had one or was begun, and every exit found was below the tenth and successfully respawned |
| ForwarderSupervisor.DegradedIsFinal | crates/looper-infra/src/forwarder_supervisor.rs:142-144 | a degraded entry keeps its counters and its slept time in every run until the repository is dropped or started by hand |
| ForwarderSupervisor.StoppedStaysStopped | crates/looper-infra/src/forwarder_supervisor.rs:113-145 | a stopped entry is never restarted while it stays configured, unless by hand |
| ForwarderSupervisor.BackoffIsBounded | crates/looper-infra/src/forwarder_supervisor.rs:146-154 | per entry the counters agree and are at most ten, no delay needs a power above 2^8, and all sleeping is within nine delays |
| ForwarderSupervisor.DelaysGrow | crates/looper-infra/src/forwarder_supervisor.rs:202-204 | the delays are at most the maximum and never shrink; the first is one second or the maximum, each next one double the one before or the maximum |
| ForwarderSupervisor.ExitSleeps | crates/looper-infra/src/forwarder_supervisor.rs:146-166 | handling an exit sleeps exactly the next delay, none at the tenth exit, which degrades like a failed respawn |
| ForwarderSupervisor.DefaultBackoff | crates/looper-infra/src/forwarder_supervisor.rs:11-12 | with the default maximum the nine delays are 1, 2, 4, 8, 16, 32 and three times 60 seconds, 243 in all |
| ForwarderSupervisor.Supervisor.StartForwarder | crates/looper-infra/src/forwarder_supervisor.rs:71-91 | spawns and writes a fresh entry, or changes nothing when the spawn fails |
| ForwarderSupervisor.Supervisor.StopForwarder | crates/looper-infra/src/forwarder_supervisor.rs:93-101 | kills and reaps the child and keeps the entry |
| ForwarderSupervisor.Supervisor.StopAll | crates/looper-infra/src/forwarder_supervisor.rs:103-108 | afterwards no entry has a child and nothing started through reconcile is unreaped |
| ForwarderSupervisor.Supervisor.CheckForwarder | crates/looper-infra/src/forwarder_supervisor.rs:140-169 | asks a live child once and acts on its exit, after sleeping the delay of the respawn |
| ForwarderSupervisor.Supervisor.Reconcile | crates/looper-infra/src/forwarder_supervisor.rs:110-170 | afterwards no unconfigured repository has an entry, every configured one has unless a spawn failed, every older live child was asked, the fleet is a run of begins, ends and exits, and each configured repository has a live child under the exact condition of LiveAfterIff |
| CircuitBreaker.Circuit.CheckAvailable | crates/looper-infra/src/circuit_breaker.rs:87-102 | the answer and the transition to half-open |
| CircuitBreaker.Circuit.OnFailure | crates/looper-infra/src/circuit_breaker.rs:117-135 | the saturating count, the time and the transition to open |
| CircuitBreaker.Circuit.OnSuccess | crates/looper-infra/src/circuit_breaker.rs:107-111 | back to the initial state |
| CircuitBreaker.Circuit.DoReset | crates/looper-infra/src/circuit_breaker.rs:154-158 | back to the initial state |
| CircuitBreaker.StateIsHistory | crates/looper-infra/src/circuit_breaker.rs:51-135 | after every trace with a monotone clock the fields are functions of the calls made; half-open if and only if somebody asked a cooldown or more after the last failure |
| CircuitBreaker.AvailableIffHistory | crates/looper-infra/src/circuit_breaker.rs:87-135 | available if and only if fewer than max(1, threshold) failures since the last success or reset, or the last one at least a cooldown ago |
| CircuitBreaker.EveryProbeIsLetThrough | crates/looper-infra/src/circuit_breaker.rs:86-100 | half-open limits nothing: after the first caller that is let through every later one is, at any times, until a failure is recorded |
| DiffIndex.ParseDiff | crates/diffanchor/src/lib.rs:56-144 | the parsing loop computes the specified index |
| DiffIndex.Validate | crates/diffanchor/src/lib.rs:166-229 | valid exactly when a range whose path ends in the anchor's contains the line, and then the first such; path unknown exactly when there is no such path; otherwise the range whose start is nearest, the first on a tie |
| DiffIndex.MarkedLines | crates/diffanchor/src/lib.rs:61-78 | which marked lines of a hunk's body are never taken for headers |
| DiffIndex.HeaderPath | crates/diffanchor/src/lib.rs:283-298 | behind each of the four side prefixes, or none, a header path is recovered |
| DiffIndex.HunkHeaderParsed | crates/diffanchor/src/lib.rs:300-325 | every rendered hunk header is read back with both starts and the heading |
| DiffIndex.FileParsed | crates/diffanchor/src/lib.rs:61-135 | from any parser state a rendered file adds exactly its own ranges |
| DiffIndex.ParseOfRender | crates/diffanchor/src/lib.rs:56-144 | of every rendered diff, any number of hunks per file, each path, new start and heading come back in order; the first range of a file ends at its start plus the context and added lines of all its hunks, every later range is one line |
| DiffIndex.AcceptedLines | crates/diffanchor/src/lib.rs:166-229 | against that index the validator accepts exactly: in files whose path ends in the anchor's the lines of that first range, one line behind included, and the first line of every later hunk |
| DiffIndex.NewSideIsAccepted | crates/diffanchor/src/lib.rs:189-204 | every new-side line of a file's first hunk is accepted under its own path |
| DiffIndex.NewSideAcceptedIff | crates/diffanchor/src/lib.rs:107-120 | a new-side line of a later hunk is accepted if and only if it is the hunk's first or the miscounted first range reaches it |
| DiffIndex.ExcerptOfLines | crates/diffanchor/src/lib.rs:121-133 | the excerpt of a file's first range is the lines behind its header, diff and file headers left out, until they have come to 1024 bytes |
| WorktreeList.ParseWorktreeList | crates/looper-git/src/helpers.rs:170-212 | the loop computes the specified entries |
| WorktreeList.BranchNames | crates/looper-git/src/helpers.rs:192-198 | local and remote ref prefixes are dropped, other refs are kept |
| WorktreeList.OtherLines | crates/looper-git/src/helpers.rs:190-203 | any other line of an entry leaves its fields as they are |
| WorktreeList.EntryParsed | crates/looper-git/src/helpers.rs:190-203 | the lines of one entry rebuild all its fields |
| WorktreeList.ParseOfPrint | crates/looper-git/src/helpers.rs:170-212 | parsing undoes printing, for every list of printable entries |
| WorktreeList.ParseOfPrintTight | crates/looper-git/src/helpers.rs:206-209 | and also when the final blank line is missing |
| ConfigTree.SplitOfDotted | crates/looper-cli/src/config_local.rs:44 | splitting a dotted key gives its parts back |
| ConfigTree.Document.SetNested | crates/looper-cli/src/config_local.rs:144-171 | the in-place walk gives the tree of the specification, and the untouched tree when it fails |
| ConfigTree.Document.RemoveNested | crates/looper-cli/src/config_local.rs:173-194 | the same for unset |
| ConfigTree.SetThenGet | crates/looper-cli/src/config_local.rs:41-56 | after a set every lookup at or below the key is a lookup in the value |
| ConfigTree.SetFrame | crates/looper-cli/src/config_local.rs:144-171 | a set changes no lookup, failing ones included, on a path that parts from the key |
| ConfigTree.SetSucceedsIff | crates/looper-cli/src/config_local.rs:150-166 | a set succeeds if and only if nothing above the key is a non-table |
| ConfigTree.SetFailsAt | crates/looper-cli/src/config_local.rs:155-166 | a set that fails names the first non-table above the key |
| ConfigTree.SetsCommute | crates/looper-cli/src/config_local.rs:144-171 | sets on keys of which neither is a prefix of the other commute, success and failure included |
| ConfigTree.UnsetThenGet | crates/looper-cli/src/config_local.rs:173-194 | after an unset nothing is found at or below the key |
| ConfigTree.UnsetFrame | crates/looper-cli/src/config_local.rs:173-194 | an unset changes no lookup on a path that parts from the key |
| ConfigTree.UnsetSucceedsIff | crates/looper-cli/src/config_local.rs:178-191 | an unset succeeds if and only if the parent is a table; otherwise the error tells a missing parent from one that is no table |
| ConfigTree.UnsetUndoesSet | crates/looper-cli/src/config_local.rs:144-194 | where the key could be unset before, unset undoes set |
| ConfigTree.UnsetLeavesTheTables | crates/looper-cli/src/config_local.rs:155-166 | where set had to create tables, set and unset leave exactly those empty tables behind |
| ConfigTree.DeepMerge | crates/looper-e2e/src/config.rs:127-142 | the loop over the source's keys computes the specified merge |
| ConfigTree.MergedLookup | crates/looper-e2e/src/config.rs:127-142 | every lookup in the merged tree, from the lookups in the two trees |
| ConfigTree.LeavesOfSourceWin | crates/looper-e2e/src/config.rs:138-140 | every non-object of the source appears at its path |
| ConfigTree.MergeAbsorbs | crates/looper-e2e/src/config.rs:127-142 | merging the same source twice is merging it once |
| AgentEnv.BuildCommandEnv | crates/looper-agent/src/env.rs:30-69 | the list is sorted and holds exactly the entries of the layered map |
| AgentEnv.LayeredLookup | crates/looper-agent/src/env.rs:36-62 | fixed keys win, the sixteen unsafe keys are absent, then the last source, then the process |
| AgentEnv.BelowIff | crates/looper-agent/src/env.rs:66 | the order of the list: prefixes first, otherwise by the first differing character |
| AgentEnv.InsertSorted | crates/looper-agent/src/env.rs:65-66 | sorting keeps the entries and orders them |
| AgentEnv.SplitsAtFirst | crates/looper-agent/src/executor.rs:139-145 | an entry is split at its first "=", one without has an empty value |
| AgentEnv.RebuildIffPlainKeys | crates/looper-agent/src/executor.rs:139-145 | splitting the list rebuilds the layered map if and only if no key contains "=" |
| DiscoveryCache.Cache.GetPrs | crates/looper-github/src/cache.rs:52-60 | items exactly while the entry has not expired |
| DiscoveryCache.Cache.SetPrs | crates/looper-github/src/cache.rs:63-67 | one entry of one map changes |
| DiscoveryCache.Cache.GetReviewPrs | crates/looper-github/src/cache.rs:70-78 | items exactly while the entry has not expired |
| DiscoveryCache.Cache.SetReviewPrs | crates/looper-github/src/cache.rs:81-87 | one entry of one map changes |
| DiscoveryCache.Cache.GetIssues | crates/looper-github/src/cache.rs:90-98 | items exactly while the entry has not expired |
| DiscoveryCache.Cache.SetIssues | crates/looper-github/src/cache.rs:101-105 | one entry of one map changes |
| DiscoveryCache.Cache.ListOpenPullRequests | crates/looper-github/src/gateway.rs:178-222 | a hit changes nothing; a miss stores what was fetched into the cache as other callers left it meanwhile; an error stores nothing |
| DiscoveryCache.Cache.ListReviewRequestedPullRequests | crates/looper-github/src/gateway.rs:224-249 | the same |
| DiscoveryCache.Cache.ListOpenIssues | crates/looper-github/src/gateway.rs:251-294 | the same |
| DiscoveryCache.CallIsItsSteps | crates/looper-github/src/gateway.rs:190-220 | such a call is a lookup, and on a miss a fetch and a store, with any steps of other calls in between |
| DiscoveryCache.GetIsLatestSet | crates/looper-github/src/cache.rs:52-105 | a get answers if and only if the latest set of that key in that map stored its items until after now |
| DiscoveryCache.AnswersAreFresh | crates/looper-github/src/gateway.rs:178-294 | over every interleaving a lookup is answered if and only if the last store into its slot has not expired, and then with what the storing call fetched |
| DiscoveryCache.NewestIff | crates/looper-github/src/gateway.rs:190-220 | in one run: the answer is the newest list fetched for its slot if and only if the call that fetched that one was the last to store |
| DiscoveryCache.SerialAnswersAreNewest | crates/looper-github/src/gateway.rs:190-220 | without overlapping calls every answer is the newest list fetched |
| DiscoveryCache.StaleAnswer | crates/looper-github/src/gateway.rs:190-220 | of any three calls in one slot two can overlap so that the third is answered with the older list |
| DiscoveryCache.NewestAnswersIff | crates/looper-github/src/gateway.rs:190-220 | all answers in all interleavings of some calls are the newest lists fetched if and only if no three of them share a slot, the first with a time to live |
| DiscoveryCache.KeyTellsFields | crates/looper-github/src/gateway.rs:186 | for the three kinds of list: without "\|" inside the fields equal keys mean equal key fields |
| DiscoveryCache.BarsCollide | crates/looper-github/src/gateway.rs:186-255 | for every query of the three kinds: some query with other key fields has the same key if and only if a key field, the last one included, contains "\|" |
| DiscoveryCache.AnswersFitTheKey | crates/looper-github/src/gateway.rs:186-294 | without "\|" an answer was fetched for a query with the same key fields, and for the very same query if and only if labels, limit and directory agree too |
| DiscoveryCache.OwnAnswersIff | crates/looper-github/src/gateway.rs:186-294 | all answers in all interleavings of some calls are fetched for their own query if and only if no two different queries among them share a slot |
| UriEncoding.EncodeUriComponent | crates/looper-github/src/helpers.rs:444-458 | the loop computes the specified encoding |
| UriEncoding.DecodeOfEncode | crates/looper-github/src/helpers.rs:444-458 | the decoder of section 2.1 of RFC 3986 undoes it, for every string of bytes |
| UriEncoding.EncodeIsInjective | crates/looper-github/src/helpers.rs:444-458 | different inputs are encoded differently |
| UriEncoding.EncodeConcat | crates/looper-github/src/helpers.rs:446-456 | encoding distributes over concatenation |
| UriEncoding.EncodeIsWellEncoded | crates/looper-github/src/helpers.rs:447-455 | only unreserved characters and upper-case triples, between n and 3n of them, n exactly if all are unreserved |

## Left out

- Spawning, signals, `git` and `gh` processes, SQLite, files, sleeping and the locks of the async runtime. In particular nothing is claimed about the end of the reader tasks after a child's exit, which are awaited while the state lock is held (`crates/looper-agent/src/executor.rs:640-654`).
- Parsing and printing of JSON, TOML and YAML, lossy UTF-8 decoding, and texts of error messages.
- `kill` and `wait` of an execution, persistence of its result, and the release of its worktree; the kill flag is an input of the loop.
- A client that disconnects from an event stream ends its polling task; the model's streams are read to the end of the run.
- Files with a `/dev/null` side are parsed by the model but not among the rendered diffs. Overflow of the 64-bit line counters is not modelled.
- `format_prompt_section`, the review disclosure stripper and the review markers: single loops without a further law.
- DeepMerge: returns the merged tree instead of writing through a mutable reference into a subtree; the order of keys does not show.
- Anchor sides: the validator treats left and right alike, so they are not an input of `Validate`.
- The defaults that the list calls fill in for an empty directory or limit, and poisoned locks of the cache: queries are compared as the callers give them.
- Configuration overlays and validation, API routes, dashboard, metrics, installation and upgrade.
- Exit classification: `reconcile` treats every exit as transient and never consults `classify_exit`.
- The depth limit counts nesting, so some paths with more than 255 links are resolved as well; which ones is not characterised beyond `ResolveSimulates` and `ResolveSucceeds`.
