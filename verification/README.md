# Models of The Linux Programming Interface examples

A Dafny model of the programs of this repository whose correctness depends on more than one
function: the directory-tree monitor built on inotify, the message-queue notification programs, the
SIGCHLD loop, the namespace scanner, the ACL updater, and a few small programs that share a file, a
pipe, a terminal or an array. Each module names the program it models.

* `Paths`, `Bytes`, `Inotify`, `DtreeSpec`, `DtreeStream`, `DtreeMonitor`, `DtreeConsistency`, `DtreeProgram`,
  `DtreeEvents`: inotify/inotify_dtree.c. `DirMonitor` is the program, with its cache, roots and read buffer changed
  in place; other processes may change the tree, and the kernel queue events, at every system call.
  When its constant `still` is set nothing interferes, and each method equals a function of
  `DtreeSpec`; the invariant, termination and the account of events are proved without it.
* `MqNotifyThread`, `MqNotifySignal`, `MqNotifySuspend`, `MultiSigchld`, `AtomicAppend`, `Lockstep`,
  `SelectMq`: concurrent programs as state machines. A step is one system call or one delivery; a
  theorem about "every run" holds for all interleavings of any length, and for any number of
  processes where the program allows it.
* `Namespaces`, `NamespaceDisplay`, `NamespaceOrder`, `WrapText`: namespaces/namespaces_of.go and the text wrapping of
  cgroups/view_v2_cgroups.go.
* `AclText`, `AclParse`, `AclUpdate`: acl/acl_update.c. `AclText` has the meaning of an ACL text and a
  grammar for it, `AclParse` the parser that works inside the argument string, `AclUpdate` the update of
  a file's list.
* `PrimeBug`, `Setenv`: debug/prime_bug.c and proc/setenv.c.

The system calls, libacl, nftw() and the user and group databases are the environment: small contracts
state what they promise, and everything they leave open is arbitrary.

Where the code does not do what its comments or users may expect, the model follows the code:

* In the deferred read of inotify_dtree.c the test `errno != -1` is always true, so after an
  interrupted read -1 is added to the byte count (lines 1199-1200). `Refill` and `Turn` show that the
  count, one short, still reaches into the last event and nothing is lost.
* mq_notify_sig.c works only when the queue is empty at the first registration, as its header says;
  `NoticedIffEmptyAtRegistration` makes that exact, and `SleepsForEver` shows the failing case.
* displayNamespaceHierarchies() displays the last topmost namespace found only; and when none was found,
  the zero value of rootNS is the special entry, whose tree is then displayed twice. `DisplayedOnce` states
  exactly when every entry is shown once.
* wrapText() of view_v2_cgroups.go takes the prefix off the width and counts it again on the first line,
  which may therefore be shorter than it need be; `PrefixCountedTwice` states exactly when.
* test_prime() leaves out the root itself and all even divisors, though main() passes every number from 3 on.
  `AcceptsExactly` has all the numbers that it takes for primes.
* setenv() removes the old entry before it allocates the new one, so the variable is lost when memory
  runs out; `FilterChangesNothingIff` states exactly when.
* The lockstep programs finish with different loop counts only if the second has one more; `BothFinishIff`.
* An empty message makes the parent of select_mq.c end with "EOF on pipe"; `AllShownUnlessEmpty`.
* With -n, adding a first named entry to a list without a mask makes acl_update.c give up, as its usage
  text warns. So does every -d -m on a directory that has no default list yet, since the first entry alone
  is not a valid list; `NoDefaultListCreated`. `RefusedIff` has the exact condition for any list.

## Model
| member | source | states |
|---|---|---|
| `Paths.AtOrBelowIsDescent` | inotify/inotify_dtree.c:623-653 | the prefix test on strings holds for a directory and its descendants and for nothing else: a sibling whose name starts with the same characters never passes |
| `Paths.MovedIsTreeMove` | inotify/inotify_dtree.c:623-653 | rewriting the string is the move of a node of the name tree, for any two directories |
| `Paths.MovedInjective` | inotify/inotify_dtree.c:623-653 | two pathnames that are rewritten to the same one were the same, if none lay below the target |
| `Paths.MovedBack` | inotify/inotify_dtree.c:623-653 | the inverse rename restores a pathname |
| `Bytes.RoundTrip` | altio/select_mq.c:45-50 | an integer written as k little-endian bytes and read back is the same, for every width |
| `Inotify.DecodeEncode` | inotify/inotify_dtree.c:778-804 | whatever follows an event structure in the buffer, reading at its first byte gives the event and its size |
| `DtreeSpec.TraverseKeepsInv` | inotify/inotify_dtree.c:521-575 | adding a watch and caching it, or finding the descriptor cached already, keeps live slots distinct and every watch with a slot |
| `DtreeSpec.RemoveKeepsInv` | inotify/inotify_dtree.c:690-706 | removing a watch together with its slot keeps the watch and slot invariant, whether the removal succeeds or not |
| `DtreeSpec.RewriteKeepsInv` | inotify/inotify_dtree.c:623-653 | rewriting pathnames keeps the watch and slot invariant |
| `DtreeSpec.ClearSlotKeepsInv` | inotify/inotify_dtree.c:278-287 | emptying the slot of a watch that is gone keeps the invariant |
| `DtreeSpec.TakeKeepsInv` | inotify/inotify_dtree.c:1122-1129 | events that leave the queue keep the invariant and remain events of descriptors that were issued |
| `DtreeSpec.EnvStepKeepsInv` | inotify/inotify_dtree.c:521-575 | no file-system activity of other processes breaks the invariant |
| `DtreeSpec.NewInstanceOk` | inotify/inotify_dtree.c:721-761 | a fresh inotify instance with an empty cache satisfies the invariant |
| `DtreeSpec.FailedLookupMeansRemoved` | inotify/inotify_dtree.c:249-274 | in every state of the invariant, a descriptor that is not found belongs to a watch already removed |
| `DtreeSpec.OneSlotPerWatch` | inotify/inotify_dtree.c:233-243 | every watch that the instance holds has exactly one slot |
| `DtreeMonitor.DirMonitor.Find` | inotify/inotify_dtree.c:233-243 | the index found is the first slot with the descriptor, or -1 if there is none |
| `DtreeMonitor.DirMonitor.PathnameInCache` | inotify/inotify_dtree.c:334-352 | true exactly when some live slot has the pathname |
| `DtreeMonitor.DirMonitor.FindEmptyCacheSlot` | inotify/inotify_dtree.c:291-314 | the first free slot, or the first of a freshly added block; no other slot changes |
| `DtreeMonitor.DirMonitor.AddWatchToCache` | inotify/inotify_dtree.c:318-329 | the cache is the old one with the descriptor and pathname in the first free slot |
| `DtreeMonitor.DirMonitor.TraverseTree` | inotify/inotify_dtree.c:521-575 | keeps the invariant under any interference; with the tree still it is the specified transition |
| `DtreeMonitor.DirMonitor.WatchDir` | inotify/inotify_dtree.c:582-600 | keeps the invariant under any interference; with the tree still every directory of the subtree is traversed in order |
| `DtreeMonitor.DirMonitor.Rebuild` | inotify/inotify_dtree.c:721-761 | reinitialize under any interference ends in a new instance whose cache satisfies the invariant; with the tree still it is the specified rebuild |
| `DtreeMonitor.DirMonitor.RewriteCachedPaths` | inotify/inotify_dtree.c:623-653 | the loop over the slots gives exactly the cache in which every pathname at or below the old one has moved |
| `DtreeMonitor.DirMonitor.RemoveWatch` | inotify/inotify_dtree.c:690-706 | the slot is emptied exactly when the kernel removed the watch |
| `DtreeMonitor.DirMonitor.ZapSubtree` | inotify/inotify_dtree.c:659-711 | on success exactly the live slots at or below the pathname are empty and no other slot has changed, even when the argument is one of the cached strings that the loop frees; under interference too |
| `DtreeMonitor.DirMonitor.FindRoot` | inotify/inotify_dtree.c:463-473 | the first root entry equal to the pathname, or -1 exactly when there is none |
| `DtreeMonitor.DirMonitor.ZapRootDirPath` | inotify/inotify_dtree.c:486-505 | the first matching root is struck out and no other; the program exits when it was not there or none is left |
| `DtreeMonitor.DirMonitor.MovedFrom` | inotify/inotify_dtree.c:864-1013 | whatever happens meanwhile: with a matching event behind it the pathnames at or below the old name are rewritten, or the cache rebuilt if the target directory is unknown; otherwise the subtree is emptied or the cache rebuilt; it asks for more input exactly on a first try with nothing behind the event |
| `DtreeMonitor.DirMonitor.MoveSelf` | inotify/inotify_dtree.c:1049-1075 | whatever happens meanwhile: the first matching root entry is struck out; unless the program then ends, no live slot at or below it remains or the cache is rebuilt; a directory that is not a root changes nothing |
| `DtreeMonitor.DirMonitor.ProcessNextEvent` | inotify/inotify_dtree.c:770-1084 | every event keeps the invariant whatever happens meanwhile; an overflow or an unknown descriptor always discards the buffer and starts a new instance; "ignored" notices change nothing; with the tree still the effect and return value are those specified |
| `DtreeMonitor.DirMonitor.Shuffle` | inotify/inotify_dtree.c:1166-1169 | the overlapping copy to the front of the buffer moves the bytes intact |
| `DtreeMonitor.DirMonitor.TakeEvents` | inotify/inotify_dtree.c:1122-1129 | read() takes whole events from the front of the queue: what it returns and what stays are the old queue and what other processes have added |
| `DtreeMonitor.DirMonitor.Dispose` | inotify/inotify_dtree.c:1138-1144 | the events that a verdict disposes of move from the buffer to those handled, and what the handling itself queues goes to the end |
| `DtreeMonitor.DirMonitor.Refill` | inotify/inotify_dtree.c:1145-1210 | after a deferred read the buffer holds the postponed event and whole events behind it; buffer and queue together are the postponed event, the old queue and what has been queued since, whatever other processes do; the byte count that is one short after an interrupted read does no harm |
| `DtreeMonitor.DirMonitor.Turn` | inotify/inotify_dtree.c:1138-1213 | a turn of the loop handles one or two events or refills the buffer; handled events, buffer and queue together remain the events queued on the instance, in order, until a rebuild starts another, whatever other processes do; with the tree still it is one step of the whole-stream reference; and the lexicographic measure decreases |
| `DtreeMonitor.DirMonitor.ProcessInotifyEvents` | inotify/inotify_dtree.c:1097-1214 | terminates and keeps the invariant; every event of the instance is handled once, in order, or still queued, whatever other processes do, unless the cache was rebuilt; with the tree still it amounts to a positive number of steps of the whole-stream reference |
| `DtreeMonitor.DirMonitor.constructor` | inotify/inotify_dtree.c:1402-1489 | set-up establishes the invariant; with the tree still it is a rebuild |
| `DtreeMonitor.DirMonitor.ExecuteCommand` | inotify/inotify_dtree.c:1221-1380 | the commands that touch the cache keep the invariant and the account of events; with the tree still their effect is the one specified |
| `DtreeMonitor.DirMonitor.Serve` | inotify/inotify_dtree.c:1440-1489 | any number of commands and event batches, in any order and with anything happening in between, keep the invariant, and no event of the instance is dropped or handled twice |
| `DtreeMonitor.DirMonitor.Drain` | inotify/inotify_dtree.c:1097-1214 | the main loop ends although other processes go on causing events, finitely many, and then every event queued on the instance has been handled; with the tree still the cache is the one that the whole-stream reference computes, however reads cut the stream, and the program exits only if the reference does or the read size is too small |
| `DtreeMonitor.EventsAt` | inotify/inotify_dtree.c:778-804 | reading at the buffer position gives the first pending event and the one behind it, and positions after either are again event boundaries |
| `DtreeStream.RefStepProgress` | inotify/inotify_dtree.c:1097-1214 | every step of the reference makes the stream smaller, so it terminates although processing an event may cause further ones |
| `DtreeStream.StepsThenRun` | inotify/inotify_dtree.c:1097-1214 | cutting the run after any number of steps does not change its result |
| `DtreeStream.HandlePrefix` | inotify/inotify_dtree.c:770-1084 | the handling of an event does not depend on what is queued behind it |
| `DtreeStream.Lookahead` | inotify/inotify_dtree.c:864-1013 | the end of the buffer matters only for a "moved from" event on its first try, which is then put off without any effect |
| `DtreeStream.BufferedStep` | inotify/inotify_dtree.c:1138-1213 | a step on the buffer is a step of the reference on buffer and queue together, provided a second try sees the next event if there is one |
| `DtreeConsistency.CachedIffDirectory` | inotify/inotify_dtree.c:334-352 | in a consistent state a pathname is cached if and only if it is a directory of the monitored trees |
| `DtreeConsistency.OneSlotPerDirectory` | inotify/inotify_dtree.c:334-352 | in a consistent state no pathname is cached twice |
| `DtreeConsistency.ReinitializeConsistent` | inotify/inotify_dtree.c:721-761 | from any cache whatsoever a rebuild on a still tree yields exactly the directories below the roots, or exits because no descriptor is left |
| `DtreeConsistency.ArrivalConsistent` | inotify/inotify_dtree.c:806-848 | a directory created or moved in, with all that comes with it, ends up cached |
| `DtreeConsistency.RmdirConsistent` | inotify/inotify_dtree.c:850-862 | a removed directory leaves the cache and nothing else does |
| `DtreeConsistency.RenameConsistent` | inotify/inotify_dtree.c:864-982 | a rename within the trees moves exactly the cached subtree |
| `DtreeConsistency.ZapFromAll` | inotify/inotify_dtree.c:659-711 | when every live slot still has its watch no removal fails, and exactly the slots at or below the pathname are emptied |
| `DtreeConsistency.MoveOutConsistent` | inotify/inotify_dtree.c:983-1013 | a directory moved out leaves the cache with its whole subtree |
| `DtreeConsistency.FileEventConsistent` | inotify/inotify_dtree.c:782-864 | events about files change nothing |
| `DtreeConsistency.OpKeepsConsistent` | inotify/inotify_dtree.c:782-1013 | after each of the six kinds of operation, once its events are processed, the cache is exactly the monitored trees again |
| `DtreeConsistency.HistoryKeepsConsistent` | inotify/inotify_dtree.c:782-1013 | the same after every history of operations, with the exhaustion of descriptors as the only exit |
| `DtreeProgram.OpKeepsInv` | inotify/inotify_dtree.c:782-1013 | right after an operation, with its events queued, the state satisfies the invariant that the program starts from |
| `DtreeProgram.Follow` | inotify/inotify_dtree.c:1097-1214 | the program itself, run on each operation of a history until nothing is queued, has exactly the monitored trees in its cache each time; it exits only when descriptors have run out or the read size is too small |
| `DtreeProgram.RunProgram` | inotify/inotify_dtree.c:1402-1489 | the same from the start of the program on: set up over given directories, then any history |
| `DtreeConsistency.RewriteTouches` | inotify/inotify_dtree.c:623-653 | a slot changes if and only if it is at or below the old pathname, and no descriptor changes |
| `DtreeConsistency.RewriteUndone` | inotify/inotify_dtree.c:623-653 | the inverse rename restores the cache if and only if nothing had been cached at or below the new pathname except what lay below the old one |
| `DtreeConsistency.RewriteDistinct` | inotify/inotify_dtree.c:623-653 | distinct cached pathnames stay distinct when nothing was cached at or below the new one |
| `DtreeEvents.LostMeansRebuilt` | inotify/inotify_dtree.c:782-1034 | after lost events, or an event on an unknown descriptor, everything read is discarded, the instance is a new one, and its cache is exactly the directories below the roots, unless descriptors ran out |
| `DtreeEvents.ReinitializeRebuilds` | inotify/inotify_dtree.c:721-761 | a rebuild drops the old instance with its queue and caches exactly what is below the roots, or ends the program because no descriptor is left |
| `DtreeEvents.ZapFromFails` | inotify/inotify_dtree.c:690-706 | a zap fails if some slot at or below the pathname has lost its watch |
| `DtreeEvents.ZapOrRebuildIs` | inotify/inotify_dtree.c:659-711 | with a watch behind every slot at or below the pathname exactly these are emptied; otherwise the cache is rebuilt |
| `DtreeEvents.DropRootIs` | inotify/inotify_dtree.c:486-505 | exactly the first matching root entry is struck out, and the program ends exactly when none is left or there was none |
| `DtreeEvents.Deleted` | inotify/inotify_dtree.c:850-862 | a deleted directory loses its slot and, if it was a root, its root entry; the program ends exactly when that was the last; nothing else changes |
| `DtreeEvents.Renamed` | inotify/inotify_dtree.c:864-982 | "moved from" with its "moved to" in a known directory: every slot at or below the old name gets the new name in front, and nothing else changes |
| `DtreeEvents.RenamedToUnknown` | inotify/inotify_dtree.c:952-972 | "moved from" with its "moved to" in an unknown directory: the cache is rebuilt |
| `DtreeEvents.MovedAway` | inotify/inotify_dtree.c:983-1008 | "moved from" followed by something else, or by nothing on a second try: the subtree leaves the cache, or the cache is rebuilt if some slot has lost its watch |
| `DtreeEvents.PutOff` | inotify/inotify_dtree.c:1009-1013 | "moved from" at the end of the buffer on a first try: put off, nothing changes |
| `DtreeEvents.Unmounted` | inotify/inotify_dtree.c:1036-1047 | an unmounted directory loses its slot and nothing else changes |
| `DtreeEvents.RootMoved` | inotify/inotify_dtree.c:1049-1075 | a root that has moved away is struck out; if another is left, its subtree leaves the cache or the cache is rebuilt over the others; any other directory changes nothing |
| `DtreeEvents.Arrived` | inotify/inotify_dtree.c:806-848 | a new directory whose pathname is not cached yet is watched with everything below it; nothing cached is lost and nothing else is added |
| `DtreeEvents.ZapCommand` | inotify/inotify_dtree.c:1350-1354 | the command z empties exactly the slots at or below the pathname |
| `DtreeEvents.AddCommand` | inotify/inotify_dtree.c:1247-1257 | the command a leaves, at or below the pathname, only existing directories in the cache and all of them watched; other slots are as they were |
| `DtreeEvents.RebuildCommand` | inotify/inotify_dtree.c:1356-1359 | the command 0 rebuilds the cache |
| `MqNotifyThread.RegisterToken` | pmsg/mq_notify_via_thread.c:72-85 | a thread that registers is the one holder of the registration token and passes it to the kernel |
| `MqNotifyThread.NextInv` | pmsg/mq_notify_via_thread.c:29-85 | every step of every thread, sender or rival reader keeps one token, one drainer for a non-empty queue, and all messages accounted for |
| `MqNotifyThread.NothingLost` | pmsg/mq_notify_via_thread.c:29-103 | in every run, whatever was queued at the start: mq_notify never fails for being registered, exactly one token exists, a non-empty queue has a thread at work, and messages are accounted for: the program has those of its own receiving steps, others those that they took, and the rest is queued |
| `MqNotifyThread.LoadShrinks` | pmsg/mq_notify_via_thread.c:29-70 | each step of the program itself reduces the remaining work |
| `MqNotifyThread.ComesToRest` | pmsg/mq_notify_via_thread.c:29-85 | left alone the program moves until no thread is left, and then the queue is empty and it is registered |
| `MqNotifyThread.LeftAlone` | pmsg/mq_notify_via_thread.c:29-103 | after any run the program left alone takes at most as many steps as its load, and where it can take no more the queue is empty, it is registered, and it has received all that was sent but for what others had taken before |
| `MqNotifyThread.WhoGotWhat` | pmsg/mq_notify_via_thread.c:29-85 | over every run the messages sent, received by the program and taken by others grow by exactly those of the sending, receiving and taking steps |
| `MqNotifyThread.AllReceived` | pmsg/mq_notify_via_thread.c:29-103 | without rivals a program at rest has received exactly what was queued at the start and sent since |
| `MqNotifySignal.NextInv` | pmsg/mq_notify_via_signal.c:29-108 | every step keeps one token and, while a message is queued, the flag, the pending signal or the register-and-drain block |
| `MqNotifySignal.NothingLost` | pmsg/mq_notify_via_signal.c:29-108 | in every run, with messages queued at the start included: registration never fails, a queued message is always noticed, and messages are accounted for: the program has those of its own receiving steps, others those that they took, and the rest is queued |
| `MqNotifySignal.Drains` | pmsg/mq_notify_via_signal.c:78-108 | with a message queued and no signal merely pending, every step of the program itself, the delivery included, brings it nearer to an empty queue |
| `MqNotifySignal.DrainedInTime` | pmsg/mq_notify_via_signal.c:78-108 | after any run, once a pending signal has been delivered, ten steps for each queued message and five more empty the queue, whatever steps of its own the program takes |
| `MqNotifySignal.CanMove` | pmsg/mq_notify_via_signal.c:78-108 | the program can always move |
| `MqNotifySignal.WhoGotWhat` | pmsg/mq_notify_via_signal.c:29-108 | over every run the messages sent, received by the program and taken by others grow by exactly those of the sending, receiving and taking steps |
| `MqNotifySignal.AllReceived` | pmsg/mq_notify_via_signal.c:29-108 | without rivals, whenever the queue is empty the program has received exactly what was queued at the start and sent since |
| `MqNotifySuspend.NextSound` | pmsg/mq_notify_sig.c:79-101 | every step keeps the registration sound, and keeps queued messages noticed once they are |
| `MqNotifySuspend.NeverBusy` | pmsg/mq_notify_sig.c:79-101 | in every run registration never fails and no message disappears |
| `MqNotifySuspend.NoticedIffEmptyAtRegistration` | pmsg/mq_notify_sig.c:33-36 | in all runs from the first registration on queued messages are noticed if and only if the queue was empty at that moment |
| `MqNotifySuspend.SleepsForEver` | pmsg/mq_notify_sig.c:79-101 | with messages already queued at registration and nobody else reading, the program sleeps for ever and receives nothing |
| `MqNotifySuspend.RecoversWhenEmptied` | pmsg/mq_notify_sig.c:79-101 | once the queue has been empty, everything is noticed from then on |
| `MqNotifySuspend.LeftAlone` | pmsg/mq_notify_sig.c:79-101 | with the queue empty at the first registration, the program left alone after any run takes a bounded number of steps and then sleeps, registered, with an empty queue, having received all that was sent but for what others had taken before |
| `MqNotifySuspend.WhoGotWhat` | pmsg/mq_notify_sig.c:79-101 | over every run the messages sent, received by the program and taken by others grow by exactly those of the sending, receiving and taking steps |
| `MqNotifySuspend.AllReceived` | pmsg/mq_notify_sig.c:79-101 | without rivals, whenever the queue is empty the program has received exactly what was queued at the start and sent since |
| `MultiSigchld.NextInv` | procexec/multi_SIGCHLD.c:28-113 | every step of parent, handler, children and signal delivery keeps the census of children and the wake-up guarantee |
| `MultiSigchld.EveryRun` | procexec/multi_SIGCHLD.c:28-113 | in every interleaving numLiveChildren is the number of children not yet reaped; the parent never sleeps over a zombie without a pending signal; it leaves the loop only when all are reaped; sigCnt counts the deliveries, one in progress apart, and there is at most one per child, stops apart |
| `MultiSigchld.NeverStuck` | procexec/multi_SIGCHLD.c:71-113 | until the parent is done some step other than a stop is possible |
| `MultiSigchld.RunsAreShort` | procexec/multi_SIGCHLD.c:28-113 | without stops the length of a run is bounded by the potential of its start |
| `MultiSigchld.AllReaped` | procexec/multi_SIGCHLD.c:28-113 | a run without stops has at most 8n + 2 steps, and where it cannot go on every child has been reaped |
| `MultiSigchld.PrintedCount` | procexec/multi_SIGCHLD.c:103-116 | the number printed at the end is that of the signals caught: at least one if there was a child, and at most one per child, stops apart |
| `Namespaces.LinkGood` | namespaces/namespaces_of.go:342-348 | appending an entry to the children of its true parent restores the invariant of the map |
| `Namespaces.OnceOverAll` | namespaces/namespaces_of.go:248-352 | over all children lists an entry occurs once, in that of its true parent, and nowhere else |
| `Namespaces.RecordedNext` | namespaces/namespaces_of.go:223-242 | one more process adds its PID to its namespace only, and only ancestors of that namespace as new entries |
| `Namespaces.TopIsListed` | namespaces/namespaces_of.go:223-352 | the topmost namespace above a listed one is listed, even while entries are being added |
| `Namespaces.FoundNext` | namespaces/namespaces_of.go:299-310 | rootNS after one more process is again the last topmost namespace found |
| `Namespaces.MembersAt` | namespaces/namespaces_of.go:223-242 | the PIDs of a namespace are those recorded with it in the scan, all of them, in scan order |
| `Namespaces.ChildrenNext` | namespaces/namespaces_of.go:316-348 | one more process keeps every children list in the order in which its entries, or namespaces below them, were first seen |
| `Namespaces.NamespaceInfo.AddNamespace` | namespaces/namespaces_of.go:223-242 | terminates for any system, cyclic ones included; keeps the map closed under visible parents with every entry listed once; children lists grow only at their ends and by entries that are new; the PID is appended to that entry alone; and rootNS becomes the topmost namespace above it exactly if that was not listed before |
| `Namespaces.NamespaceInfo.AddNamespaceToList` | namespaces/namespaces_of.go:248-352 | adds the entry and its missing ancestors, each listed once under its true parent; a new topmost one becomes the root, those with an invisible owner go below the special entry |
| `Namespaces.NamespaceInfo.AttachInvisible` | namespaces/namespaces_of.go:312-332 | the special entry is created on demand and the new one listed below it, everything else unchanged |
| `Namespaces.NamespaceInfo.Attach` | namespaces/namespaces_of.go:342-348 | the new entry becomes the last child of its parent and the map is closed again |
| `Namespaces.NamespaceInfo.AddAll` | namespaces/namespaces_of.go:431-455 | after the scan every entry is an ancestor of some process's namespace, PIDs are listed exactly once, in scan order, children in the order in which they were first seen, the map is closed, and rootNS is the last topmost namespace that the scan came across |
| `NamespaceDisplay.TreeLines` | namespaces/namespaces_of.go:683-703 | the traversal from an entry prints every entry under it whose type is shown exactly once, and no other |
| `NamespaceDisplay.TreeLevels` | namespaces/namespaces_of.go:683-703 | every line is printed at the true depth of its entry below the start |
| `NamespaceDisplay.HierarchiesLines` | namespaces/namespaces_of.go:746-780 | the display has one line for each shown entry below the root or the special entry |
| `NamespaceDisplay.DisplayedOnce` | namespaces/namespaces_of.go:746-780 | after a scan every shown entry is displayed exactly once, at its depth, if and only if the scan found exactly one topmost namespace |
| `NamespaceDisplay.ScanLines` | namespaces/namespaces_of.go:746-780 | how often each entry is displayed after a scan: twice if no topmost namespace was found, otherwise once if it is below the last one found or below the special entry, and not at all if it is not |
| `NamespaceDisplay.SecondTopHidesFirst` | namespaces/namespaces_of.go:746-780 | two topmost user namespaces with a process in each: the first is not displayed |
| `NamespaceDisplay.NoTopShowsTwice` | namespaces/namespaces_of.go:746-780 | a namespace with an invisible owner and nothing else: displayed twice |
| `NamespaceDisplay.Run` | namespaces/namespaces_of.go:949-985 | for every acyclic system, the map and root that the scan leaves are displayed completely and once if and only if exactly one topmost namespace was found |
| `NamespaceDisplay.AcyclicIsReady` | namespaces/namespaces_of.go:683-703 | for every acyclic parent relation depths exist, so the traversal terminates |
| `NamespaceOrder.LinesInOrder` | namespaces/namespaces_of.go:683-703 | one line stands before another if and only if the second entry is below the first or in a branch listed later where the two part |
| `NamespaceOrder.FamilyInOrder` | namespaces/namespaces_of.go:683-703 | an entry comes after its parent, and siblings in the order of the children list |
| `NamespaceOrder.LinesBetween` | namespaces/namespaces_of.go:683-703 | all lines between an entry and one below it are below it |
| `NamespaceOrder.ReadAsTree` | namespaces/namespaces_of.go:683-725 | if no parent of a shown entry is hidden, a line is below an earlier one if and only if it and all between are indented further |
| `NamespaceOrder.HierarchiesInOrder` | namespaces/namespaces_of.go:746-762 | all lines of the root come before those of the special entry, and each of the two parts is in order |
| `NamespaceOrder.DisplayReadAsTree` | namespaces/namespaces_of.go:746-762 | the whole display can be read as a tree in the same way |
| `NamespaceOrder.ParentsAreShown` | namespaces/namespaces_of.go:683-703 | no parent of a shown entry is hidden when owners are user namespaces, or in the PID hierarchy when its types are shown |
| `WrapText.GreedyBreaks` | namespaces/namespaces_of.go:615-641 | greedy breaking keeps the words in order and exceeds the width only in lines of one word |
| `WrapText.GreedyOptimal` | namespaces/namespaces_of.go:615-641 | no admissible breaking of the same words has fewer lines |
| `WrapText.FieldsOfText` | namespaces/namespaces_of.go:615-641 | the words read back from the wrapped text are the words |
| `WrapText.Wrap` | namespaces/namespaces_of.go:615-641 | the loop prints the greedy breaking: between newlines stands the indentation and one line, its words separated by single spaces; and splitting the result at white space gives the words of the text |
| `WrapText.WrappedLines` | namespaces/namespaces_of.go:615-641 | of the lines printed: the words of the text, multi-word lines within the width, fewest lines possible |
| `WrapText.WrapPrefixed` | cgroups/view_v2_cgroups.go:561-597 | the prefixed loop prints a greedy breaking whose first line is narrower by the prefix counted twice: between newlines stands one line, its words separated by single spaces, the first behind the prefix and the others behind as many spaces |
| `WrapText.PrefixedLines` | cgroups/view_v2_cgroups.go:561-597 | with the prefix or the padding counted every multi-word line stays within the width, and the words are kept |
| `WrapText.NarrowerFirstLine` | cgroups/view_v2_cgroups.go:561-597 | a narrower first line changes the breaking if and only if some first words, two at least, fit the wider one only, and never saves a line |
| `WrapText.PrefixCountedTwice` | cgroups/view_v2_cgroups.go:561-597 | the exact condition under which counting the prefix twice changes the lines printed |
| `WrapText.OneLineBecomesTwo` | cgroups/view_v2_cgroups.go:561-597 | "a b" behind "pp" in a width of 6 is printed on two lines although one would do |
| `PrimeBug.NewtonStep` | debug/prime_bug.c:21-41 | a step never falls below the root, descends while above it, and at the root stays or swings to its successor |
| `PrimeBug.Sqroot` | debug/prime_bug.c:21-41 | for every int from 2: no division by zero, no overflow, termination even when the iterate swings, and the result is the integer square root |
| `PrimeBug.TrialDivision` | debug/prime_bug.c:49-51 | true exactly when no odd number from 3 up to, not including, the root divides the number |
| `PrimeBug.TestPrime` | debug/prime_bug.c:43-54 | accepts exactly the numbers without an odd divisor from 3 up to, not including, the root; these are exactly the primes, the squares of primes, the products of twin primes, the powers of two, and the odd primes times a power of two that exceeds them by one at most |
| `PrimeBug.NeverRejectsPrime` | debug/prime_bug.c:43-54 | no prime is rejected |
| `PrimeBug.AcceptsExactly` | debug/prime_bug.c:43-54 | the same of every number from 3 on, even ones included |
| `PrimeBug.OddAccepted` | debug/prime_bug.c:43-54 | an odd number is accepted if and only if it is prime, the square of a prime or the product of twin primes |
| `PrimeBug.EvenAccepted` | debug/prime_bug.c:43-54 | an even number is accepted if and only if it is a power of two, or an odd prime times a power of two that exceeds it by one at most |
| `PrimeBug.FirstDivisor` | debug/prime_bug.c:26-31 | with truncating division the first divisor is zero exactly for -1, 0 and 1 |
| `PrimeBug.FourIsAccepted` | debug/prime_bug.c:43-54 | 4 is accepted and is not prime |
| `Setenv.WithoutLookup` | proc/setenv.c:23-53 | filtering a name makes its lookup fail and changes no other, names sharing a prefix included |
| `Setenv.WithoutMembers` | proc/setenv.c:23-53 | filtering keeps every other entry as often as it was there |
| `Setenv.FilterChangesNothingIff` | proc/setenv.c:66-80 | a setenv() that fails for lack of memory leaves the environment as it was if and only if the name was not in it |
| `Setenv.FailureLosesValue` | proc/setenv.c:66-80 | with A=1 in the environment, a setenv() of A that fails loses the value |
| `Setenv.ReplacedLookup` | proc/setenv.c:55-81 | after replacing there is one entry for the name, with the new value, and every other lookup is unchanged |
| `Setenv.Shift` | proc/setenv.c:43-44 | moving the pointers back by one, terminator included, removes exactly one entry |
| `Setenv.RemoveAll` | proc/setenv.c:37-50 | the in-place loop leaves the order-preserving filter, duplicates gone |
| `Setenv.Environment.Unsetenv` | proc/setenv.c:23-53 | no name, an empty one or one with an equals sign is refused with nothing changed; otherwise the array holds the filtered entries |
| `Setenv.Environment.Setenv` | proc/setenv.c:55-81 | refusal of a missing value and of the same names, keeping an existing value, replacement, and the loss of the old entry when memory or space runs out |
| `AtomicAppend.NextInv` | fileio/atomic_append.c:54-60 | every write or seek of any process keeps the file free of holes, the old contents intact, and its size between the most any one has written and what all have |
| `AtomicAppend.EndsBetween` | fileio/atomic_append.c:48-62 | for any number of processes in any mix of modes, every run ends with a file between s plus the largest count and s plus the sum, without hole or damage |
| `AtomicAppend.AppendIsExact` | fileio/atomic_append.c:48-62 | with O_APPEND throughout, every run ends with exactly the sum and all bytes of each process in the file |
| `AtomicAppend.NoMoreThanWritten` | fileio/atomic_append.c:54-60 | in any mix of modes and after any run, a process has at most as many bytes in the file as it has done writes |
| `AtomicAppend.LosingRun` | fileio/atomic_append.c:54-60 | from any state of seeking processes some run adds only as many bytes as the longest remaining count |
| `AtomicAppend.RunAdding` | fileio/atomic_append.c:54-60 | from any state of seeking processes some run adds any given number of bytes from the longest remaining count to the sum of all |
| `AtomicAppend.EverySizeIsReached` | fileio/atomic_append.c:48-62 | for any number of seeking processes every size between the two bounds is the end of some run |
| `Lockstep.NextInv` | psem/psem_tty_lockstep_init.c:45-65 | every step of either process keeps the one token, strict alternation and the loop counters in step |
| `Lockstep.TakesTurns` | psem/psem_tty_lockstep_init.c:38-65 | in every run the output is a prefix of b0 a0 b1 a1 ..., the semaphores and the processes between wait and post total one, and the counters differ by at most one |
| `Lockstep.RestIsAnUnclaimedToken` | psem/psem_tty_lockstep_init.c:38-65 | no step is possible if and only if the token lies with a process that has finished |
| `Lockstep.EndIsUnique` | psem/psem_tty_lockstep_second.c:45-54 | every run has at most 3(a + b) steps and can stop only in one state, fixed by the two loop counts |
| `Lockstep.BothFinishIff` | psem/psem_tty_lockstep_second.c:45-54 | both programs finish if and only if the second loop count equals the first or is one more; otherwise the one with loops left waits for ever |
| `SelectMq.HeaderDecodes` | altio/select_mq.c:45-50 | the three header fields are read back from the bytes |
| `SelectMq.WriteInv` | altio/select_mq.c:55-79 | an atomic write adds a whole record behind what the parent is reading |
| `SelectMq.ReadHeaderInv` | altio/select_mq.c:143-148 | the header read gets a whole header, that of the oldest record not yet printed |
| `SelectMq.ReadBodyInv` | altio/select_mq.c:150-157 | the body read gets exactly the text of that record, or the parent gives up because the text is empty |
| `SelectMq.NextInv` | altio/select_mq.c:55-157 | every step keeps the pipe a sequence of whole records but for the one being decoded |
| `SelectMq.ReceivedAre` | altio/select_mq.c:62-65 | over every run a child has received exactly the messages that arrived for it, in order, and has given up exactly if one was too long |
| `SelectMq.OutputIsAMerge` | altio/select_mq.c:55-157 | in every run the output is an order-preserving merge of prefixes of what the children received, all fields intact, and the buffer never overflows |
| `SelectMq.QueueOrderIsKept` | altio/select_mq.c:55-157 | with distinct queues the printed messages of a queue are a prefix of those received from it |
| `SelectMq.AllShownUnlessEmpty` | altio/select_mq.c:143-157 | once only new arrivals can happen, the parent has given up if and only if an empty message was received, and otherwise has printed every message |
| `SelectMq.IdleMeansRead` | altio/select_mq.c:143-157 | the program never blocks with anything unread: the pipe is empty and every child has written all |
| `SelectMq.BecomesIdle` | altio/select_mq.c:55-157 | after any run, while no message arrives, at most three steps for each message received are possible, so that state is reached |
| `AclText.EntryIff` | acl/acl_update.c:79-174 | a text is accepted as an entry if and only if it is a spelling of that entry in the grammar |
| `AclText.ShortEntryIff` | acl/acl_update.c:79-174 | where permissions must not be given a text is accepted if and only if it is tag, colon and qualifier with at most one more colon, naming that entry |
| `AclText.ListIff` | acl/acl_update.c:180-209 | a list, with permissions or without, is accepted with these entries if and only if it is at most MAX_ENTRIES comma-free texts of them joined by commas |
| `AclText.RoundTrip` | acl/acl_update.c:79-209 | printing 1 to MAX_ENTRIES well-formed entries and parsing the text with permissions required gives back the list |
| `AclParse.StrChr` | acl/acl_update.c:87-97 | the first occurrence within the string, or none |
| `AclParse.ParsePerms` | acl/acl_update.c:149-171 | the letters set the permission bits; any other character but a dash is refused |
| `AclParse.FindColons` | acl/acl_update.c:87-98 | the string is cut at its first two colons and the tag terminated in place |
| `AclParse.ParseEntrySpec` | acl/acl_update.c:79-174 | the in-place parser agrees with the specification on every string, changes only its own slot of the array, and in the string only turns colons into terminators |
| `AclParse.ParseACL` | acl/acl_update.c:180-209 | the result and the stored entries are those specified, later slots are untouched, and no input makes it store at or beyond MAX_ENTRIES |
| `AclUpdate.RecalculateOnce` | acl/acl_update.c:398-443 | recalculating the mask after each entry equals recalculating it once at the end, for -m and for -x |
| `AclUpdate.Effect` | acl/acl_update.c:398-443 | each named key gets its last specification (or goes), other keys stay as they were, and the mask ends as the union of the group class |
| `AclUpdate.KeyIff` | acl/acl_update.c:234-266 | two entries are the same one if and only if they have the same tag and, for named users and groups, the same qualifier |
| `AclUpdate.OutcomeOf` | acl/acl_update.c:398-443 | the same effect in tags, qualifiers and permissions of the entries themselves: unnamed ones kept, named ones as last given or gone, the mask the total of the group class, no name twice |
| `AclUpdate.RefusedIff` | acl/acl_update.c:438-439 | the exact condition on any list, the empty one included, under which the list after a step is valid, for -m and -x and with or without -n; otherwise the program gives up |
| `AclUpdate.RefusedFromValid` | acl/acl_update.c:438-439 | the same from a valid list: -m is refused only under -n, at a first named entry without a mask; -x when a required entry goes, or under -n the mask while named entries remain |
| `AclUpdate.NoDefaultListCreated` | acl/acl_update.c:387-439 | on a directory without a default list every -d -m is refused at its first entry |
| `AclUpdate.StaysValid` | acl/acl_update.c:401-443 | without -n, -m is refused at its first entry or never |
| `AclUpdate.ValidIff` | acl/acl_update.c:438-439 | acl_valid() of the entries is validity of the map they stand for |
| `AclUpdate.AclFile.FindEntry` | acl/acl_update.c:215-269 | finds an entry with the tag and, for named users and groups, the qualifier; otherwise there is none |
| `AclUpdate.AclFile.SetPerms` | acl/acl_update.c:273-296 | the entry gets exactly the permissions asked for; keys stay unique and unchanged |
| `AclUpdate.AclFile.CalcMask` | acl/acl_update.c:432-434 | the mask, created if missing, becomes the union of the group class |
| `AclUpdate.AclFile.ApplyEntry` | acl/acl_update.c:402-434 | one entry of the list applied: found or created and set, or deleted, then the mask; keys stay unique |
| `AclUpdate.AclFile.Update` | acl/acl_update.c:398-443 | what is on disk is the effect of the entries before the first one refused, or of all of them: an entry that they do not name keeps its permissions, one that they name has those last given or is gone with -x, and a recalculated mask is the total of the group class; it stops exactly where the list becomes invalid or cannot be stored; from a valid list -m without -n is never refused, and from any list it goes through, if everything can be stored, exactly when its first entry does |

## Left out
- inotify_dtree.c: logging, the option that aborts on a cache inconsistency, and its cache check; they do not change the cache.
- inotify_dtree.c: descriptors are not reused within an instance and run out rather than wrap, a deletion and the loss of its watch are one step of the kernel, a finite number of further events is caused by others, pathnames fit in PATH_MAX, and the read-size option does not exceed the buffer.
- inotify_dtree.c: whether the cache equals the tree while events are outstanding, or after renames onto an existing directory; only the watch and slot invariant is promised there and proved.
- DtreeMonitor.DirMonitor.Serve: says what became of the events but not what the cache holds, because the tree may change arbitrarily between turns; Drain and Follow have the exact result when it does not.
- DtreeMonitor.DirMonitor.Drain: the cache is determined only when the tree is still; otherwise the invariant and the account of events hold.
- PrimeBug.TestPrime: asked of numbers from 3 on, as main() does.
- WrapText.Wrap: one byte is one column, and white space is the ASCII kind.
- Setenv.Environment.Setenv: whether memory and space suffice are parameters.
- AclParse.ParseEntrySpec: after a refusal the slot of the refused entry is unspecified; the program does not use it.
- AclUpdate.AclFile.Update: whether acl_set_file() succeeds is a parameter, and the list read from the file has unique keys.
- acl_update.c: option parsing, -k, and user and group names resolved through strtol() and the databases, which are arbitrary functions here.
- select_mq.c: terminal input, and the cut that printf() makes at a null byte in a text.
- pmsg programs: no other process registers for the queue, and nobody else sends the signal.
- multi_SIGCHLD.c: sleep times, messages and error exits.
- NamespaceDisplay.Run: for a scan of at least one process; with none, the map is empty and the display looks up an entry that is not there.
- NamespaceOrder.ReadAsTree: asked of displays in which no parent of a shown entry is hidden; for the kernel an owner is a user namespace, which is always shown, and `ParentsAreShown` has that.
- NamespaceOrder.DisplayReadAsTree: the same, and with a topmost namespace as the root.
- namespaces_of.go: the --subtree option, opening and reading /proc, the ioctl() calls behind the parent relation, colours and PID lists.
- psem_tty_lockstep_second.c: both programs have opened the semaphores before the first step.
- The other programs of the repository: single system calls with error checks, exercise skeletons, and code of one branch or of finitely many cases, where a model would say no more than the code does.
