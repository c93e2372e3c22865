# A Dafny model of RSPLIB's protocol cores

RSPLIB implements Reliable Server Pooling (RSerPool): pool elements (PEs) register
with registrars over ASAP, registrars keep one handlespace in common over ENRP, and
services resume interrupted sessions from cookies. This project models the state
machines behind that and proves what they promise, for every input and every
sequence of events. `dafny verify dfyconfig.toml` checks everything.

## What is modelled

**The ASAP request pipeline** (`AsapPipeline`, `AsapRuns`, `AsapTimer`, `AsapWalk`,
`AsapInstance`, `AsapLinkedQueue`, `RingList`). Client threads append requests to one queue; the main loop transmits them
and matches responses by queue position only. `AsapPipeline` gives the atomic steps as
functions, `AsapRuns` composes them with a registrar that answers in order, `AsapWalk` says what
becomes of each request in them, and the
class `AsapInstance` does the same steps in place and is proved to refine them. A
message pointer is the message's identity. A request that is enqueued while a pass has
the queue unlocked is ordered before or after that pass. `RingList` is the intrusive ring
list and message port below it, with real `Prev`/`Next` pointers, and `AsapLinkedQueue`
does the walk over the queue on those pointers.

**The CalcApp scheduler** (`CalcAppModel`, `CalcAppRuns`, `CalcAppCookies`,
`CalcAppEffects`, `CalcAppServer`). Capacity is
split evenly over the running jobs; progress is credited and deadlines are recomputed
whenever the number of jobs changes. `double` is `real`; the explicit `ceil` and `rint`
are kept. Every reading of the clock within an event is a separate, non-decreasing
value. The fields `initial`, `cookies`, `reported` and `scheduledAt` of a job and `retired` of a server
are history that the code does not store; `reported` is the progress at the moment at
which the completion is sent.

**Handlespace and peers** (`HandlespaceChecksum`, `HandlespaceModel`, `PeerList`,
`TransportAddresses`, `RegistrarModel`, `PeerRegistration`, `Resynchronisation`, `TableSynchronisation`, `RegistrarTables`,
`HomeSelection`, `PoolHandleOrder`, `TableDownload`, `HandleTable`, `OwnershipTable`,
`OwnershipDownload`, `OwnershipEnd`). The handlespace is a map from handle and identifier to an element;
every change notifies the peer list, whose ownership checksums are updated
incrementally. The peer list is a sequence in the order of its index storage. On top of
it: paged download of the handle table and of the ownership table while they change,
mark-and-sweep resynchronisation, both taken together, and the XOR rule for the home of
an element (sections 3.2.3, 3.6.2 and 3.6.3 of RFC 5353, section 2 of RFC 1071).

**Smaller cores**: the portable IEEE double codec (`NetDouble`), the identifier bitmap
(`IdentifierBitmap`, 64-bit words), the raster protocol of the fractal service
(`RasterProtocol`, `RasterServer`, `RasterResumption`) and the environment cache
(`CacheModel`, `CacheRuns`, `CacheUse`, `EnvironmentCache`).

## Where the code does not keep a promise

The model follows the code. Where an expected property fails, a lemma gives an input
and another one says exactly when the property holds.

- ASAP timer: a pass that transmits a request and then fails on a later one disconnects
  but still arms the timer, and the timeout handler's CHECK fails
  (`AsapTimer.DisturbedRunFails`, `AsapTimer.PassCoherentIff`, `AsapTimer.AlwaysCoherentIff`).
- CalcApp: after a job was resumed from a cookie, the CHECK of `updateCalculations` holds
  at every time if the cookie claims no more than the job size, and fails at every time
  otherwise (`CalcAppRuns.CookieCheckIff`, `CalcAppRuns.OverclaimingCookie`).
- Peer list: the CHECK at the end of a deregistration fails when the address of a static
  entry was registered again while that entry carried an identifier
  (`RegistrarModel.CheckCanFail`, `RegistrarModel.DeregisterCheckIff`,
  `RegistrarModel.StaticRegistrationIff`). The comment there says that the flags of the
  entry stay valid; `peerListNodeDelete` clears them, and the model does so too.
- Ownership table: a continuation page does not look at the home of the element it starts
  with, so that it can return elements of another registrar
  (`OwnershipTable.ContinuationIff`, `OwnershipTable.OwnedDownloadIff`,
  `OwnershipDownload.OnlyOwnedIff`). A full page of them leads back into the own elements,
  and a download can go in circles (`OwnershipTable.EndlessDownload`,
  `OwnershipEnd.DownloadEndsIff`).
- Resynchronisation and takeover: an element that is marked because its registrar is being
  synchronised keeps its mark when a peer takes it over; if that peer is being synchronised
  too, its purge removes the element (`Resynchronisation.TakenOverAndPurged`,
  `Resynchronisation.ResynchroniseIff`).
- First owned element: the search for it misses an element with identifier 0 and the
  handle of one zero byte if it is the last one of the storage
  (`OwnershipTable.FindFirst`, `OwnershipTable.ProbeIsMissed`,
  `TableSynchronisation.MissedIff`). Marking and purging start with that search, so that a
  resynchronisation can overlook this one element (`Resynchronisation.ResynchroniseIff`,
  `Resynchronisation.UnseenElementStays`). Its checksum is zero, so that the ownership
  checksums are not affected.
- Raster cookies: the alert path can send a cookie with more than the current pixel still
  buffered; if the server then fails, resumption loses pixels
  (`RasterServer.CookieWithBufferedPixels`, `RasterResumption.BufferedPixelsAreLost`,
  `RasterResumption.ResumptionIff`).
- Environment cache: entries used last at the same time hide each other from `purge`, which
  then misses its targets and lets a store exceed the limits (`CacheRuns.TiesAreSkipped`,
  `CacheModel.TargetsMetIff`, `CacheRuns.StoreRespectsLimitsIff`).

## Model

| member | source | states |
|---|---|---|
| AsapRuns.ResponsesMatchRequests | src/asapinstance.c:1109-1211 | in every run, through any disconnects, reconnects, timeouts and home changes, a delivered response belongs to the request at the queue head and has an admissible type, and the CHECK that the queue is not empty holds |
| AsapRuns.PrefixIsOutstanding | src/asapinstance.c:1360-1456 | in every run the queue prefix up to LastAITM is exactly what is outstanding on the current connection, in the order of transmission; LastAITM points into the queue and only while connected |
| AsapRuns.ResolvedExactlyOnce | src/asapinstance.c:1177-1211 | every request ever enqueued is, exactly once in all, still queued or answered, discarded or dispatched; it went out at most RegistrarRequestMaxTrials times; answers resolved the requests they were for |
| AsapRuns.RunKeepsInv | src/asapinstance.c:1503-1555 | every sequence of main-loop steps and registrar answers keeps the invariant of the pipeline |
| AsapRuns.TransmitConserves | src/asapinstance.c:1386-1455 | a walk over the queue neither loses nor duplicates a request |
| AsapRuns.TransmitSends | src/asapinstance.c:1386-1455 | an undisturbed walk keeps exactly the transmitted requests that await a response, in order, with the cursor on the last one |
| AsapRuns.PassSynchronised | src/asapinstance.c:1360-1477 | a queue pass keeps queue prefix and channels in step, also when it disconnects |
| AsapRuns.DeliverKeeps | src/asapinstance.c:1109-1211 | handling a response removes exactly the answered request and keeps queue prefix and channels in step |
| AsapTimer.TimerCoherence | src/asapinstance.c:1343-1356 | in runs without a pass that fails after a request of its own, the timer is armed iff LastAITM is set, for the queue head's deadline, and the timeout handler's CHECK holds |
| AsapTimer.PassCoherentIff | src/asapinstance.c:1459-1476 | a pass keeps timer and cursor together iff no transmission fails after a response-expected request of the same pass went out |
| AsapTimer.AlwaysCoherentIff | src/asapinstance.c:1343-1477 | timer and cursor agree after every event of a run iff no pass of it does so |
| AsapTimer.DisturbedRunFails | src/asapinstance.c:1413-1476 | two requests of which the second cannot be sent lead to a timeout whose CHECK fails |
| AsapWalk.TransmissionsAndDeadlines | src/asapinstance.c:1386-1455 | a pass transmits the requests that have trials left, in queue order, up to the transmission that fails; the response to the n-th one is due a response timeout after the time read for it |
| AsapWalk.TimerIsArmed | src/asapinstance.c:1441-1476 | a pass that begins without a timer arms it a response timeout after the first request that awaits a response, or not at all |
| AsapWalk.ResolvedIff | src/asapinstance.c:1388-1455 | exactly the requests without trials left are given up, because there is no registrar or because it did not answer, and exactly those sent without expecting a response are done |
| AsapWalk.OfflineCounts | src/asapinstance.c:1388-1455 | without a connection the other requests stay in order and count one more trial |
| AsapWalk.FailureKeeps | src/asapinstance.c:1413-1429 | a transmission that fails ends the pass: its request has used a trial and stays behind those that await a response, and all that follow stay untouched |
| AsapWalk.GivenUpLate | src/asapinstance.c:1388-1409 | in every run a request is given up only after it was in the queue for more passes than it may have trials |
| AsapWalk.PassConnection | src/asapinstance.c:1360-1456 | there is a connection after a pass iff there was one or something called for one and a registrar was found, and no transmission failed |
| AsapWalk.ResponseCloses | src/asapinstance.c:1109-1211 | a response closes the connection iff nothing was asked, its type is not the one that the head of the queue calls for, or it refuses the addresses of a registration that nobody waits for |
| AsapWalk.ResponsePerRequest | src/asapinstance.c:1121-1124 | each kind of request with a response has one of its own, and an error is none |
| AsapWalk.TimeoutRequeues | src/asapinstance.c:1343-1356 | after a timeout every request is to be transmitted again, in the same order |
| AsapWalk.NewHomeRequeues | src/asapinstance.c:988-1035 | so it is after a change of the home registrar, but with a connection |
| AsapWalk.FirstComeFirstServed | src/asapinstance.c:393-430 | in every run the queue is in the order in which its requests were enqueued |
| AsapInstance.AsapInstance.HandleQueuedAITMs | src/asapinstance.c:1360-1477 | the in-place pass over the queue takes the step that the theorems on whole runs are about |
| AsapInstance.AsapInstance.TransmitQueued | src/asapinstance.c:1386-1456 | the loop that edits the queue while walking it equals the recursive walk |
| AsapInstance.AsapInstance.TransmitOne | src/asapinstance.c:1388-1453 | the five things that can happen to a request in the loop: discarded, left, failed with a disconnect, sent for good, sent and awaited |
| AsapInstance.AsapInstance.SetTimeout | src/asapinstance.c:1459-1476 | the timer, unless armed, is set to the first message whose timeout is not yet scheduled, and all marks are cleared |
| AsapInstance.AsapInstance.HandleResponseFromRegistrar | src/asapinstance.c:1109-1211 | the response handler takes the step of the model, including disconnects and re-arming |
| AsapInstance.AsapInstance.HandleRegistrarTimeout | src/asapinstance.c:1343-1356 | the timeout handler takes the step of the model and reports whether its CHECK failed |
| AsapInstance.AsapInstance.DisconnectFromRegistrar | src/asapinstance.c:368-389 | closing the connection clears cursor and timer, and nothing happens without a connection |
| AsapInstance.AsapInstance.ConnectToRegistrar | src/asapinstance.c:301-364 | a found registrar becomes the connection, with nothing outstanding |
| AsapInstance.AsapInstance.SendRequest | src/asapinstance.c:393-430 | a request is appended to the queue |
| AsapInstance.AsapInstance.HandleHomeChange | src/asapinstance.c:988-1035 | a registrar that announces itself as home replaces the connection; nothing stays outstanding on the old one |
| AsapLinkedQueue.TransmitLinked | src/asapinstance.c:1386-1456 | the walk on the linked queue, whose removals depend on trials and transmission, leaves exactly the requests of the recursive walk in their order with their new fields, and sends and resolves the same |
| AsapLinkedQueue.Decide | src/asapinstance.c:1388-1453 | what happens to a request and whether its node is taken out |
| RingList.AddAfter | src/doublelinkedringlist.c:72-79 | the pointers represent the old sequence with the node inserted behind the given one |
| RingList.RemNode | src/doublelinkedringlist.c:99-105 | the pointers represent the old sequence without exactly the given node, which is unlinked |
| RingList.DoubleLinkedRingList.AddHead | src/doublelinkedringlist.c:83-87 | prepends to the represented sequence |
| RingList.DoubleLinkedRingList.AddTail | src/doublelinkedringlist.c:91-95 | appends to the represented sequence |
| RingList.DoubleLinkedRingList.constructor | src/doublelinkedringlist.c:54-59 | an empty ring |
| RingList.MessagePort.GetFirstMessage | src/interthreadmessageport.c:79-87 | the head of the sequence, or NULL |
| RingList.MessagePort.GetNextMessage | src/interthreadmessageport.c:91-100 | the successor in the sequence, or NULL at the end |
| RingList.MessagePort.RemoveMessage | src/interthreadmessageport.c:104-109 | removes the message anywhere in the queue, in place |
| RingList.MessagePort.Enqueue | src/interthreadmessageport.c:113-124 | appends the message and stores its reply port |
| RingList.MessagePort.Dequeue | src/interthreadmessageport.c:128-139 | takes the oldest message, or NULL |
| RingList.Reply | src/interthreadmessageport.c:154-158 | the message goes to the end of its reply port only; other ports stay as they are |
| RingList.Drain | src/interthreadmessageport.c:113-139 | messages come out in the order in which they went in |
| RingList.MessagePort.Visit | src/asapinstance.c:1387-1396 | the successor that is looked up before a message is removed is the next message afterwards |
| RingList.Sweep | src/asapinstance.c:1386-1455 | a walk over the linked queue that removes messages on its way removes exactly those and keeps the order of the others |
| CalcAppRuns.CompletionInTime | src/calcappservice.cc:208-267 | in every run each deadline is the first integer time at which the credited work reaches the job size at the current rate; whenever a completion was reported, the progress at that moment was the job size |
| CalcAppRuns.CapacityConserved | src/calcappservice.cc:106-233 | in every run TotalUsedCalculations is the progress made here on all jobs ever admitted, at most Capacity times uptime, and the job limit is kept |
| CalcAppRuns.FailoverAccounting | src/calcappservice.cc:365-390 | a chain of servers that resumes a job from k cookies has performed at least JobSize - k/2 calculations when completion is reported, with 0 <= Completed <= JobSize everywhere |
| CalcAppRuns.ChainWork | src/calcappservice.cc:570-587 | each handover loses at most half a calculation, for unfinished chains too |
| CalcAppRuns.CookieCheckIff | src/calcappservice.cc:365-390 | after a job is resumed from a cookie, crediting passes its CHECK at any later time iff the cookie claims no more than the job size |
| CalcAppRuns.OverclaimingCookie | src/calcappservice.cc:218-227 | a run with a cookie of two calculations for a job of one, after which the next crediting fails its CHECK |
| CalcAppRuns.ChecksHold | src/calcappservice.cc:208-233 | in every run with sound cookies the next crediting passes its CHECK |
| CalcAppRuns.DeadlineIsFirst | src/calcappservice.cc:245-250 | the rounded-up deadline is the least time with complete work |
| CalcAppRuns.CompleteKeepsInv | src/calcappservice.cc:431-456 | a completion timer that is due reports a job with the whole job done, and keeps the invariant |
| CalcAppRuns.TimerKeepsInv | src/calcappservice.cc:631-665 | every branch of the timer handler keeps the invariant |
| CalcAppRuns.ShutdownKeepsInv | src/calcappservice.cc:182-204 | removing all jobs, cleanly or not and with failing transmissions, keeps the accounting and leaves no job |
| CalcAppRuns.UpdateWithinCapacity | src/calcappservice.cc:208-233 | crediting work stays within the capacity since the earliest last update |
| CalcAppRuns.RunKeepsInv | src/calcappservice.cc:600-665 | every sequence of events keeps the invariant |
| CalcAppCookies.CookiesInTime | src/calcappservice.cc:237-267 | in every run the next cookie of every job is due no later than the maximum time after the last one and no later than the maximum work allows at the current rate, up to the rounding, and no earlier than one of the two asks for |
| CalcAppCookies.CookieIsDue | src/calcappservice.cc:252-260 | the same for one call of scheduleJobs: the earlier of the two limits |
| CalcAppCookies.RintNearest | src/calcappservice.cc:252-260 | rounding is to nearest, and to even between two |
| CalcAppEffects.SharesAddUp | src/calcappservice.cc:208-217 | the shares of all jobs make up the capacity |
| CalcAppEffects.NothingIdle | src/calcappservice.cc:208-233 | as long as no job comes to its end, the whole capacity is credited |
| CalcAppEffects.AdmissionListsJob | src/calcappservice.cc:106-136 | a job is admitted iff there is room, in front, with what was asked for and its first keep-alive an interval away; the others stay |
| CalcAppEffects.WhereJobsStart | src/calcappservice.cc:346-390 | a new request starts with nothing done, a resumed one with what its cookie says |
| CalcAppEffects.FailedAdmission | src/calcappservice.cc:395-411 | if the acceptance cannot be sent, the job is gone and the others stay |
| CalcAppEffects.RemovalTakesOne | src/calcappservice.cc:155-178 | a removal takes out the given job and no other |
| CalcAppEffects.CookieSays | src/calcappservice.cc:570-587 | a cookie says, to the nearest calculation, how far the job is; if it cannot be sent, just this job is gone |
| CalcAppEffects.TimerCompletes | src/calcappservice.cc:631-665 | if the completion of the first job with something due has come, it is reported and just this job is gone |
| CalcAppEffects.TimerSendsCookie | src/calcappservice.cc:631-665 | else, if its cookie is due, it gets one with the progress up to then and the next one is scheduled |
| CalcAppEffects.TimerKeepsAlive | src/calcappservice.cc:631-665 | else, if its keep-alive is due, that goes out and the timeout for the answer starts |
| CalcAppEffects.TimerGivesUp | src/calcappservice.cc:631-665 | else its keep-alive was not answered and the job is gone |
| CalcAppEffects.KeepAliveAnswered | src/calcappservice.cc:535-548 | an answered keep-alive stops the timeout and starts the next interval for the job that it names only |
| CalcAppEffects.KeepAliveOfClient | src/calcappservice.cc:481-512 | a keep-alive of the client changes nothing unless the answer cannot be sent |
| CalcAppEffects.ShutdownLeavesCookies | src/calcappservice.cc:182-204 | a clean shutdown leaves every client with one more cookie, which says to the nearest calculation how far its job is |
| CalcAppServer.TimerMatchesJobs | src/calcappservice.cc:271-283 | the armed timer is due iff some job has something due |
| CalcAppServer.CalcAppServer.UpdateCalculations | src/calcappservice.cc:208-233 | the in-place loop credits every job and the statistics as in the model |
| CalcAppServer.CalcAppServer.ScheduleJobs | src/calcappservice.cc:237-267 | the in-place loop sets both deadlines of every job as in the model |
| CalcAppServer.CalcAppServer.AddJob | src/calcappservice.cc:106-136 | a job is admitted iff the limit allows it, with crediting before and scheduling after |
| CalcAppServer.CalcAppServer.FindJob | src/calcappservice.cc:140-151 | the first job with this session and identifier |
| CalcAppServer.CalcAppServer.RemoveJob | src/calcappservice.cc:155-178 | exactly the given job goes, with crediting before and scheduling after |
| CalcAppServer.CalcAppServer.RemoveAllJobs | src/calcappservice.cc:182-204 | a clean shutdown sends up-to-date cookies first; no job is left |
| CalcAppServer.CalcAppServer.SendCookie | src/calcappservice.cc:570-587 | the cookie holds the rounded progress; a failed transmission removes the job |
| CalcAppServer.CalcAppServer.HandleJobCompleteTimer | src/calcappservice.cc:431-456 | credits, schedules, reports and removes in this order |
| CalcAppServer.CalcAppServer.HandleCookieTransmissionTimer | src/calcappservice.cc:591-596 | credits, sends the cookie, schedules |
| CalcAppServer.CalcAppServer.HandleTimer | src/calcappservice.cc:631-665 | the first job with something due is served, completion before cookie before keep-alive, and the timer is armed anew |
| CalcAppServer.CalcAppServer.ScheduleNextTimerEvent | src/calcappservice.cc:271-283 | the timer is the earliest time stamp of any job |
| HandlespaceChecksum.SubUndoesAdd | src/poolhandlespacechecksum.c:34-48 | 32-bit subtraction undoes addition and conversely |
| HandlespaceChecksum.Compute | src/poolhandlespacechecksum.c:52-71 | adds the 16-bit words of a buffer, an odd last byte included, modulo 2^32 |
| HandlespaceChecksum.Finish | src/poolhandlespacechecksum.c:75-81 | terminates with the complement of the one's complement reduction |
| HandlespaceChecksum.FoldUnique | src/poolhandlespacechecksum.c:75-81 | the reduction is the only 16-bit value congruent modulo 65535 that is zero just for zero |
| HandlespaceChecksum.ComputeElementChecksum | src/poolelementnode-template_impl.h:223-252 | the checksum of an element is the exact word sum over handle and identifier |
| HandlespaceChecksum.ElementCoverage | src/poolelementnode-template_impl.h:223-252 | the checksum of an element is the word sum of one buffer: the handle, filled up to whole words, and the identifier |
| HandlespaceChecksum.OneByteShows | src/poolelementnode-template_impl.h:223-252 | elements that differ in one covered byte have different checksums, and so have all handlespaces that differ just in them, also after the reduction to 16 bits |
| HandlespaceChecksum.IdentifierShows | src/poolelementnode-template_impl.h:223-252 | so it is for elements of one pool whose identifiers differ in one byte |
| HandlespaceChecksum.SampleChecksum | src/poolelementnode-template_impl.h:223-252 | handle "A" and identifier 1: 321 on a little-endian machine, 16641 on a big-endian one |
| HandlespaceChecksum.OrderIrrelevant | src/poolhandlespacenode-template_impl.h:91-135 | summing up the same elements in any order gives the same accumulator |
| HandlespaceChecksum.NoWrapAround | src/poolhandlespacechecksum.c:34-39 | up to 3640 elements the accumulator holds the exact sum |
| HandlespaceChecksum.ByteOrderIndependent | src/poolhandlespacechecksum.c:52-81 | without wrap-around, machines of either byte order end with the same two bytes |
| HandlespaceModel.RegisterKeepsInv | src/poolhandlespacenode-template_impl.h:700-766 | creating or updating an element keeps handlespace checksum, ownership checksum and owned count equal to recomputation |
| HandlespaceModel.UpdateKeepsInv | src/poolhandlespacenode-template_impl.h:576-637 | an ownership change keeps them too, and the CHECK on the owned count holds |
| HandlespaceModel.RemoveKeepsInv | src/poolhandlespacenode-template_impl.h:770-820 | a removal keeps them too, and the CHECK on the owned count holds |
| HandlespaceModel.MarkKeepsInv | src/poolhandlespacemanagement-template_impl.h:679-694 | marking changes no checksum |
| HandlespaceModel.FoundSum | src/poolhandlespacenode-template_impl.h:116-135 | the elements that the search finds have the checksum of all elements owned, because the one it can miss weighs nothing |
| HandlespaceModel.WireAgrees | src/rserpoolmessagecreator.c:568-588 | two registrars that know the same elements of a third one write the same two checksum bytes, whatever their byte orders, if the accumulators do not wrap around |
| HandlespaceModel.FewAgree | src/poolhandlespacechecksum.c:52-81 | and they do not wrap around for up to 3640 elements |
| PeerList.PeerOrder | src/peerlistnode-template_impl.h:38-59 | the index comparison is a strict total order on keys |
| PeerList.PresentIff | src/peerlist-template_impl.h:290-314 | an insertion is refused iff an entry with the same key is listed |
| PeerList.InsertSorted | src/peerlist-template_impl.h:290-314 | insertion keeps the list sorted, hence identifiers unique |
| PeerList.FindOverlap | src/peerlist-template_impl.h:394-404 | the first entry in index order whose addresses overlap, or none |
| PeerList.NotifyEffect | src/peerlistmanagement-template_impl.h:526-577 | a notification changes the checksums of exactly the peers concerned, by exactly the given amounts |
| TransportAddresses.BlockComparison | src/transportaddressblock.c:266-317 | the loop over the addresses computes the total order of address blocks |
| TransportAddresses.OverlapComparison | src/transportaddressblock.c:321-382 | the nested loops yield zero iff port and flags agree and there is a common address, or no address in either |
| TransportAddresses.OverlapIsMutual | src/transportaddressblock.c:321-382 | overlap does not depend on the order of the blocks, and equal blocks overlap |
| RegistrarModel.ChecksumsAgree | src/peerlistmanagement-template_impl.h:309-595 | under any interleaving of peer and element events in which no deregistration has failed its CHECK, every peer holds the recomputed checksum of its elements, identifiers are unique, the own one never appears, dynamic entries have one, the own checksums agree, and the CHECKs on relinking, unlinking and the owned count hold |
| RegistrarModel.NoCheckFails | src/peerlistmanagement-template_impl.h:309-455 | if no static address is registered again while its entry carries an identifier, no CHECK fails in any run |
| RegistrarModel.RegisterPeerKeeps | src/peerlistmanagement-template_impl.h:309-414 | every branch of a registration keeps the invariant, and the CHECKs on relinking a static entry under its new identifier hold |
| PeerRegistration.RegistrationAnswers | src/peerlistmanagement-template_impl.h:309-414 | a registration is refused iff a dynamic entry has no identifier, a static one has one, or it is the own one; a refused one changes no entry beyond its new flag |
| PeerRegistration.RegistrationListsPeer | src/peerlistmanagement-template_impl.h:309-414 | an accepted one is listed exactly once, with its identifier, address, time and recomputed checksum, in place of the entry that it is about, if any; every other entry stays as it was |
| PeerRegistration.DeregistrationEffect | src/peerlistmanagement-template_impl.h:418-455 | a deregistered entry is gone, or goes back to having no identifier if it is static; every other entry stays as it was |
| PeerRegistration.RestartedTimer | src/peerlistmanagement-template_impl.h:478-489 | a restarted timer runs out when the expiry time has passed since the last update, and no other entry is touched |
| RegistrarModel.RelinkWorks | src/peerlist-template_impl.h:318-343 | a static entry is found under its old identifier, and nothing is in its way under the new one |
| RegistrarModel.DeregisterKeeps | src/peerlistmanagement-template_impl.h:418-455 | a deregistration that passes its CHECK keeps the invariant, and the entry is found where it is linked |
| RegistrarModel.DeregisterDistinct | src/peerlistmanagement-template_impl.h:418-455 | with distinct static addresses it passes its CHECK, and they stay distinct |
| RegistrarModel.RegisterAdjusts | src/poolhandlespacenode-template_impl.h:700-766 | for every registrar the notification of a registration turns the old checksum into the recomputed one |
| RegistrarModel.UpdateAdjusts | src/poolhandlespacenode-template_impl.h:576-637 | the same for an ownership change, with Sub for the old and Add for the new home |
| RegistrarModel.RemoveAdjusts | src/poolhandlespacenode-template_impl.h:770-820 | the same for a removal |
| RegistrarModel.ElementAfter | src/poolhandlespacemanagement-template_impl.h:164-276 | an accepted registration stores the element with its home and unmarked, a removal takes it out, a takeover changes its home, marking marks what the search finds, and no event touches any other element |
| RegistrarModel.DeregisterCheckIff | src/peerlistmanagement-template_impl.h:430-443 | the CHECK fails iff a static entry with identifier goes while an entry without identifier has its addresses |
| RegistrarModel.StaticRegistrationIff | src/peerlistmanagement-template_impl.h:309-414 | a static registration keeps all later deregistrations safe iff no static entry with identifier has the address |
| RegistrarModel.CheckCanFail | src/peerlistmanagement-template_impl.h:443-443 | a sequence of events after which the CHECK fails |
| RegistrarTables.RegistrarTables.RegisterPeerListNode | src/peerlistmanagement-template_impl.h:309-414 | takes the registration step of the model and returns its error code |
| RegistrarTables.RegistrarTables.UpdateStaticEntry | src/peerlist-template_impl.h:318-343 | updates and relinks a static entry as in the model; the own identifier is refused |
| RegistrarTables.RegistrarTables.AddOrUpdateEntry | src/peerlist-template_impl.h:347-373 | adds or updates an entry as in the model; the own identifier is refused |
| RegistrarTables.RegistrarTables.FindByAddress | src/peerlist-template_impl.h:377-406 | finds the first overlapping entry |
| RegistrarTables.RegistrarTables.DeregisterPeerListNode | src/peerlistmanagement-template_impl.h:418-455 | removes or demotes the entry and says whether the CHECK held |
| RegistrarTables.RegistrarTables.PurgeExpiredPeers | src/peerlistmanagement-template_impl.h:493-522 | exactly the expired entries are removed or demoted, their number is returned, the invariant is kept; it stops only where a deregistration fails its CHECK |
| RegistrarTables.RegistrarTables.FirstTimer | src/peerlist-template_impl.h:115-123 | the entry with the earliest timer, or none |
| RegistrarTables.RegistrarTables.UpdateNotification | src/peerlistmanagement-template_impl.h:526-577 | applies a notification as in the model |
| RegistrarTables.RegistrarTables.VerifyChecksums | src/peerlistmanagement-template_impl.h:581-595 | the CHECK that stored and recomputed checksums agree always holds |
| RegistrarTables.RegistrarTables.ComputeOwnershipChecksum | src/poolhandlespacenode-template_impl.h:116-135 | the sum of the checksums of a registrar's elements modulo 2^32, in whatever order they are visited |
| RegistrarTables.RegistrarTables.RegisterPoolElement | src/poolhandlespacemanagement-template_impl.h:164-276 | takes the registration step of the model: invalid handles are refused, known elements lose their mark |
| RegistrarTables.RegistrarTables.DeregisterPoolElement | src/poolhandlespacemanagement-template_impl.h:370-385 | takes the removal step of the model, or reports that there is no such element |
| RegistrarTables.RegistrarTables.UpdateOwnershipOfPoolElementNode | src/poolhandlespacenode-template_impl.h:576-637 | takes the ownership step of the model |
| RegistrarTables.RegistrarTables.MarkPoolElementNodes | src/poolhandlespacemanagement-template_impl.h:679-694 | marks exactly the elements of the registrar that the search finds |
| RegistrarTables.RegistrarTables.PurgeMarkedPoolElementNodes | src/poolhandlespacemanagement-template_impl.h:698-719 | removes exactly the marked elements of the registrar that the search finds, one removal step each, and returns their number |
| Resynchronisation.Resynchronise | src/poolhandlespacemanagement-template_impl.h:679-719 | after mark, any events but a second marking, and purge, the peer owns exactly the elements last registered as its own or taken over by it, without those taken over with a mark, and the overlooked one if there is one; elements of others stay |
| Resynchronisation.ResynchroniseIff | src/poolhandlespacemanagement-template_impl.h:679-719 | the resynchronisation is exact iff nothing is overlooked (nothing was heard of the one element that a search can miss, and the marking missed it unmarked or the purge misses it) and nothing is lost (taken over with a mark and not missed by the purge) |
| Resynchronisation.TakenOverAndPurged | src/rspregistrar-takeover.c:390-411 | a marked element that the peer takes over while it is being synchronised is purged |
| Resynchronisation.UnseenElementStays | src/poolhandlespacenode-template_impl.h:1020-1053 | a handlespace in which an element that the peer no longer has survives the resynchronisation |
| Resynchronisation.ChecksumsMatch | src/rspregistrar-enrp.c:811-920 | if the events tell of the peer's own elements and none is lost, the stored checksum is the peer's: the same accumulator for the same byte order, the same bytes on the wire for any byte order and up to 3640 elements |
| Resynchronisation.RunConfirms | src/poolelementnode-template_impl.h:256-277 | an element of the peer is unmarked iff its last event was a registration as the peer's or a takeover of an unmarked one, or it was so before and had no event; it is marked iff its last event was a takeover of a marked one, or it was so before and had no event |
| TableSynchronisation.MissedIff | src/poolhandlespacenode-template_impl.h:1020-1053 | the search in the sorted ownership storage misses the first element exactly when the handlespace model says so |
| TableSynchronisation.DownloadSynchronises | src/rspregistrar-enrp.c:811-920 | a complete download of the peer's ownership table whose pages are right, registered and followed by the purge, gives the peer's set, up to the overlooked element, and the peer's checksum |
| HomeSelection.GetUsefulPeerForPE | src/peerlistmanagement-template_impl.h:599-620 | the listed peer with the greatest ID xor PE ID if that beats the own one, else none |
| HomeSelection.RegistrarsAgree | src/peerlistmanagement-template_impl.h:599-620 | registrars that list each other agree on one home, which alone keeps the element and which all others name |
| HomeSelection.MetricInjective | src/peerlistmanagement-template_impl.h:605-612 | different identifiers have different metrics for the same element |
| HomeSelection.XorBits | src/peerlistmanagement-template_impl.h:605-612 | the metric has just those bits in which the identifiers differ |
| PoolHandleOrder.HandleOrder | src/poolhandle.c:88-99 | the comparison of pool handles is a strict total order |
| PoolHandleOrder.KeyOrder | src/poolelementnode-template_impl.h:307-318 | so is the order by handle and identifier |
| TableDownload.NothingTwice | src/poolhandlespacemanagement-template_impl.h:519-608 | whatever changes between pages, the elements delivered are strictly ascending, so none comes twice |
| TableDownload.NothingMissed | src/rserpoolmessagecreator.c:1125-1214 | an element in the table at every request is delivered by the end of the download, and only elements of some table are |
| TableDownload.ExactlyOnce | src/rserpoolmessagecreator.c:1125-1214 | an element present throughout is delivered at exactly one position, also when responses carry only part of a page |
| TableDownload.FixedTableComplete | src/poolhandlespacemanagement-template_impl.h:519-608 | for a fixed table the responses concatenate to the sorted table |
| TableDownload.FixedTableEnds | src/rserpoolmessagecreator.c:1202-1211 | for a fixed table the download ends |
| TableDownload.ResponseSize | src/rserpoolmessagecreator.c:1125-1214 | no response carries more than was asked for or than 1024 elements, and it is empty iff nothing lies behind the cursor |
| TableDownload.RequestsNeeded | src/rserpoolmessagecreator.c:1202-1211 | with a fixed table and whole pages the download ends with the request behind the full pages, and no sooner |
| HandleTable.GetGlobalHandleTable | src/poolhandlespacemanagement-template_impl.h:519-608 | the nested loops return exactly the next elements behind the cursor, even if the cursor's element or pool is gone, and move the cursor to the last one |
| HandleTable.FillPage | src/poolhandlespacemanagement-template_impl.h:568-584 | a page takes as many elements as allowed across pools, in order |
| HandleTable.Locate | src/poolhandlespacemanagement-template_impl.h:537-565 | finds the first element behind the cursor |
| HandleTable.CutIsAfter | src/poolhandlespacemanagement-template_impl.h:546-565 | what follows the position found is what follows the cursor in the sorted table |
| OwnershipTable.ContinuationIff | src/poolhandlespacemanagement-template_impl.h:479-499 | a continuation page holds foreign elements iff no owned one is left and a registrar with a larger identifier has elements; otherwise it is right |
| OwnershipTable.OwnedDownloadIff | src/poolhandlespacemanagement-template_impl.h:456-515 | with a fixed table a download delivers exactly the owned elements iff its start is not missed and it does not end with a full page in front of another registrar's elements |
| OwnershipTable.EndlessDownload | src/poolhandlespacemanagement-template_impl.h:456-515 | a table of two elements for which a download goes on for ever |
| OwnershipEnd.DownloadEndsIff | src/rserpoolmessagecreator.c:1202-1211 | with a fixed table a download ends iff its start is missed, or the own pages do not come out even, or the foreign page is not full, or the owned elements behind its last element do not come out even |
| OwnershipEnd.CirclesForEver | src/rserpoolmessagecreator.c:1202-1211 | otherwise no number of requests ends it |
| OwnershipEnd.RightDownloadEnds | src/rserpoolmessagecreator.c:1202-1211 | if every page is right, one request per owned element and one more suffice, also with partial responses |
| OwnershipTable.ProbeIsMissed | src/poolhandlespacenode-template_impl.h:1020-1053 | a table whose only element is never found |
| OwnershipDownload.OnlyOwnedIff | src/poolhandlespacemanagement-template_impl.h:456-515 | with tables that change and responses that carry part of a page, a download delivers owned elements only iff at each request behind the first an owned element is left or no larger registrar has any |
| OwnershipDownload.OwnedDownload | src/rserpoolmessagecreator.c:1125-1214 | if so, no element comes twice, every element owned throughout is delivered by the end, and only elements that were owned are |
| OwnershipDownload.FixedOwnedComplete | src/rserpoolmessagecreator.c:1125-1214 | for a fixed table the responses then concatenate to the owned elements in order |
| OwnershipTable.FindFirst | src/poolhandlespacenode-template_impl.h:1020-1053 | finds the registrar's first element, except in the one case where nothing lies behind the probe |
| OwnershipTable.GetOwnershipHandleTable | src/poolhandlespacemanagement-template_impl.h:456-515 | the loop returns the start or continuation page that the lemmas are about |
| NetDouble.EncodeFields | src/netdouble.c:68-117 | the encoder yields the binary64 interchange fields of every value, its CHECKs hold, and exponent field 2047 only occurs for infinities and NaN |
| NetDouble.Normalise | src/netdouble.c:93-98 | the loop terminates with the fraction and exponent of normal and subnormal numbers |
| NetDouble.RoundTrip | src/netdouble.c:68-159 | decoding the encoding returns every finite non-zero value exactly, infinities and NaN in their class, zeros as +0 |
| NetDouble.FieldsRoundTrip | src/netdouble.c:121-159 | encoding the decoding reproduces every field pattern, except for zero's sign and the payload of NaN |
| NetDouble.ByteSwapTwice | src/netutilities.c:2020-2034 | swapping the bytes of a 64-bit word twice gives it back |
| NetDouble.ByteSwapReverses | src/netutilities.c:2020-2034 | the swap reverses the eight bytes of the word |
| NetDouble.NetworkBytes | src/netdouble.c:50-65 | the bytes on the wire are sign, exponent and fraction of the interchange format, most significant first |
| NetDouble.OneOnTheWire | src/netdouble.c:68-117 | the number 1 is 3F F0 and six zero bytes |
| NetDouble.WireRoundTrip | src/netdouble.c:68-159 | the round trip holds over the wire, byte swaps included |
| NetDouble.DoubleToNetwork | src/netdouble.c:68-117 | the network form is the byte-swapped word of the interchange fields |
| NetDouble.NetworkToDouble | src/netdouble.c:121-159 | every 64-bit word decodes to a valid double |
| IdentifierBitmap.FreeExists | src/identifierbitmap.c:61-87 | identifiers are available iff some bit below Entries is clear |
| IdentifierBitmap.WrittenEffect | src/identifierbitmap.c:91-119 | setting or clearing the bit of an identifier changes no other one |
| IdentifierBitmap.FindBit | src/identifierbitmap.c:73-79 | skips exactly the leading set bits of a word |
| IdentifierBitmap.IdentifierBitmap.constructor | src/identifierbitmap.c:37-49 | all identifiers are free |
| IdentifierBitmap.IdentifierBitmap.AllocateID | src/identifierbitmap.c:61-87 | returns the least free identifier, and -1 iff none is free; Available stays the number of clear bits and no bit beyond Entries is set |
| IdentifierBitmap.IdentifierBitmap.FindFree | src/identifierbitmap.c:66-80 | the search stays in bounds and its CHECK holds |
| IdentifierBitmap.IdentifierBitmap.AllocateSpecificID | src/identifierbitmap.c:91-105 | allocates the identifier iff it is free |
| IdentifierBitmap.IdentifierBitmap.FreeID | src/identifierbitmap.c:109-119 | makes the identifier free again and changes no other |
| RasterServer.FractalGeneratorServer.CalculateImage | src/fractalgeneratorservice.cc:368-494 | an undisturbed session sends packets that tile the image from its start position with the right colours, whatever flushes are forced |
| RasterServer.FractalGeneratorServer.AdvanceX | src/fractalgeneratorservice.cc:264-337 | the pixel is buffered or sent, the buffer index stays below 324, and a cookie that alone is due goes out with the buffer as it is; the session goes on iff no failure is provoked, no shutdown is under way and what is due can be sent; a full or late buffer is emptied, and a due or last cookie names the current position |
| RasterServer.FractalGeneratorServer.AdvanceY | src/fractalgeneratorservice.cc:341-345 | the next row continues where the last one ended |
| RasterServer.FractalGeneratorServer.SendData | src/fractalgeneratorservice.cc:229-260 | the packet carries exactly the buffered pixels and the buffer is empty afterwards |
| RasterServer.FractalGeneratorServer.SendCookie | src/fractalgeneratorservice.cc:190-225 | the cookie holds the current position and leaves the buffer alone |
| RasterProtocol.HandleDataMessage | src/fractalpooluser.cc:586-642 | the row-wrapping loop paints the points onto consecutive pixels within the image, and refuses packets that start outside or are too large |
| RasterProtocol.SessionExtends | src/fractalpooluser.cc:586-642 | packets that tile a range extend the correctly painted part to its end |
| RasterResumption.UndisturbedSession | src/fractalgeneratorservice.cc:368-494 | every pixel gets the server's colour, for every width and height |
| RasterResumption.ResumptionIff | src/fractalgeneratorservice.cc:144-225 | a session resumed from any cookie of a failed server completes the image iff the cookie names no pixel behind the next one to be painted; for a failure right after the cookie, iff at most the current pixel was buffered |
| RasterResumption.FailoversComplete | src/fractalgeneratorservice.cc:144-173 | any number of such failovers completes the same image |
| RasterResumption.BufferedPixelsAreLost | src/fractalgeneratorservice.cc:296-331 | a session that fails after a cookie with two buffered pixels loses one |
| RasterServer.CookieWithBufferedPixels | src/fractalgeneratorservice.cc:264-337 | the server does send that session, start cookie included |
| CacheModel.PurgeIsLeastRecentlyUsed | src/environmentcache.cc:184-222 | with distinct times, what is evicted was used before everything that stays, both targets are met if they can be, and whatever else keeps later entries and meets both targets keeps nothing that is evicted here |
| CacheModel.TargetsMetIff | src/environmentcache.cc:184-222 | all targets that the entries could meet are met iff no two entries were used last at the same time |
| CacheModel.PurgeMeetsIff | src/environmentcache.cc:184-222 | purge meets its targets iff the entries that it visits are enough |
| CacheModel.EvictShortest | src/environmentcache.cc:194-216 | the evicted prefix is the shortest that meets both targets, or everything |
| CacheRuns.RunAccounting | src/environmentcache.cc:318-433 | in every run from the empty cache, whatever the clock does, TotalSize is the sum of the stored sizes and hashes are unique |
| CacheRuns.StoreRespectsLimitsIff | src/environmentcache.cc:318-376 | after any run, storing a file of the announced size respects both limits iff the entries that purge visits are enough to make room; under a strictly increasing clock iff the size is at most MaxSize and MaxEntries is at least 1 |
| CacheRuns.TiesAreSkipped | src/environmentcache.cc:184-222 | two files stored at the same time: purge sees only one, and the next store exceeds a limit |
| CacheUse.StoreEffect | src/environmentcache.cc:318-376 | a store puts in a file that is not there with its size and time and changes no other entry; it evicts nothing if there is room |
| CacheUse.FetchEffect | src/environmentcache.cc:380-433 | a fetch renews the time of an intact entry, drops a damaged one and leaves all others alone |
| CacheUse.EntriesCarryLastUse | src/environmentcache.cc:318-433 | in every run each entry carries the time at which its file was put in or found intact last |
| CacheUse.LeastRecentlyUsed | src/environmentcache.cc:184-222 | in every run with a strictly increasing clock, what purge evicts was used last before all that it keeps |
| EnvironmentCache.EnvironmentCache.Purge | src/environmentcache.cc:184-222 | the eviction loop removes what the model says and reports whether both targets were met |
| EnvironmentCache.EnvironmentCache.StoreInCache | src/environmentcache.cc:318-376 | takes the store step of the model |
| EnvironmentCache.EnvironmentCache.CopyFromCache | src/environmentcache.cc:380-433 | takes the fetch step of the model: intact entries become most recently used, others are dropped |
| EnvironmentCache.EnvironmentCache.IsInCache | src/environmentcache.cc:299-314 | tells whether the hash is stored |

## Left out

- Sockets, SCTP options, multicast, mutexes, thread wake-up and memory exhaustion: steps are atomic, and whether a transmission or a hunt succeeds is an input.
- The registrar hunt, message encoding and parsing, pool policies and PE selection: whether an element fits its pool is an input of its registration.
- Red-black trees and timer storages: storages are sorted sequences or maps with the same order; ties between timers are broken arbitrarily.
- PE expiry in the handlespace: it is a sequence of removals, which the theorems about runs cover.
- ASAP: the instance holds its queue as a sequence, and the walk on the linked queue stands beside it in `AsapLinkedQueue`; keep-alive handling apart from the change of the home registrar, the handle resolution cache and cyclic re-registration; messages on the registrar connection arrive whole.
- CalcApp: floating-point rounding other than `ceil` and `rint`, load reporting, output files and size checks of messages; no statement about the armed timer after `handleCookieEcho`, which does not restart it.
- Peer list: elements without a home registrar, and takeover and synchronisation status of peers.
- Resynchronisation.Resynchronise: between marking and purging the peer's elements are not marked once more, which the code's synchronisation flag prevents.
- OwnershipTable.OwnedDownloadIff: the closed form for a fixed table and responses that carry whole pages; OwnershipDownload.OnlyOwnedIff is the condition for changing tables and partial responses, request by request.
- TableDownload.ExactlyOnce: at least one element of a page fits into its response; the code sends no response otherwise, with the cursor already at the end of the page.
- Raster protocol: the colours themselves (an arbitrary function), parameter messages and the closing packet.
- Environment cache: files and hashing (a stored file has a hash and a size) and filling the cache from a directory.
- Command-line programs, logging, printing and the graphical user interface.
