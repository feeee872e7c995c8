# OpENer connection stack: model and proofs

This project models the parts of the OpENer EtherNet/IP adapter stack that are hard to get right, and proves
what they promise.

- **Connection lifecycle.** Forward Open, Forward Close, the periodic tick, received packets and messages, ending
  sessions and shutdown act on static connection slots and one active list. `Lifecycle` gives each operation as a
  transition on slots and list. `Departures`, `Opens`, `Arrivals` and `Visits` say in full what each operation does,
  by slots and list alone: who goes and who stays, which slot and which answer an open gets, whom a packet reaches, what
  a tick changes. `Invariants`, `Runs`, `Streams` and `Counts` prove what every run of every configuration keeps: slots
  and list agree, one master per multicast input, unique identities, one established owner per input, unbroken frame
  numbering and sequence counts. `Timeouts` and `Hazards` say exactly when the stack goes no further and when a second owner
  gets in, `Voices` exactly when a multicast input is left with a master that no longer speaks.
  `ConnectionManagers` is the same stack as it runs — slots in an array, the list linked through its node pool
  (`ActiveLists`), nodes closed under the feet of the walk — and is proved, method by method and for whole runs, to
  compute those transitions.
- **Timing.** `Timing` holds the timer and sequence arithmetic, `Supervision` what it means for one connection:
  production without drift, a watchdog that fires exactly when due, a replay window. `Clocks` and `Pacing` carry
  that over to runs of the whole stack, the latter across changes of the master of an input.
- **Wire formats.** `Words` and `Messages` are the octets and the outgoing buffer; `PacketFormats` parses and
  assembles the Common Packet Format; `PacketRoundTrips`, `Encapsulation`, `IoFrames` and `EPaths` relate what is
  written to what is read.
- **Tables.** `Sessions` keeps session and timer tables in agreement, `Instances` the instance list and its
  counters, `Attributes` the attribute masks and the attributes.

`dafny verify dfyconfig.toml` checks the whole project.

Conventions: sockets are integers with -1 for "none"; octet strings are sequences; 16- and 32-bit arithmetic is
written out with its modulus where it can wrap. What the surroundings decide while an operation runs (random draws,
connection IDs, the outcome of assembly size and configuration checks, the sessions that close with a connection,
whether the application data is new) is part of the request or of the tick.

Where code and comments of the stack differ, the model follows the code: the owner search described as looking for
the same output assembly compares the input assembly (source/src/cip/appcontype.c:190-193), and the test for
reserved EPATH segments described as "greater than 0xE0" looks at the three lowest bits
(source/src/cip/cipcommon.c:1405-1408).

Where the stack would go no further, the model says so instead of excluding the case, and a run ends there: a call
through a close function that is not set (source/src/cip/appcontype.c:207-209), a write through the node that an
exhausted pool did not give (source/src/utils/doublylinkedlist.c:36-43), the data of a node freed under a walk
(source/src/cip/appcontype.c:404-407), and random draws of which none is unused.

Four promises fail in general, and the project states exactly when they hold.

- That the stack goes on. A run ends early if and only if it comes to one of three kinds of step
  (`Hazards.RunHaltsExactly`): an open for which no number drawn is unused; an open that is misdirected (see below) or
  that finds a slot while all nodes are on the list (`Hazards.OpenFatalExactly`); a tick whose walk comes to an owner,
  not itself the multicast master, whose watchdog fires while a listener stands right behind the last connection in
  line for the socket that an input-only connection of its input holds (`Timeouts.TimeOutFatalExactly`). Each is
  reached from start-up: `Hazards.FatalIsReachable`, `Hazards.ExhaustionIsReachable` at the sizes of the sample
  application, which reserves 13 slots and 9 nodes, and `Timeouts.FreedNodeIsReachable`.
- Exclusive ownership. An open that finds the owner of its input timed out on the same originator closes the slot of
  its own entry, not the owner's. If that is another slot, the call goes through a close function that is not set,
  unless an open refused late has left one there; in that case a second owner gets in (`Hazards.OwnershipExactly`,
  `Hazards.NullCallExactly`, with runs from start-up for both in `Hazards.FatalIsReachable` and
  `Hazards.TwoOwnersAreReachable`). Distinct inputs of the owner entries exclude both. In every configuration, at
  most one exclusive owner of an input is established, and all others timed out on the same originator
  (`Runs.EstablishedOwnersDiffer`).
- A master that speaks. The search for a producer does not look at the state, so an input-only or listen-only
  connection is accepted onto a master that has timed out and hears nothing. A step deprives the dependents of an input
  of their established master in this way and no other (`Voices.NextVoicedExactly`, `Voices.SilenceIsReachable`).
- The length of a reply. A reply whose additional status is longer than two words would carry a length field that is
  too large, and only then (`PacketRoundTrips.BodyLength`, `PacketRoundTrips.LongStatusRefused`). No code of the stack
  sets more than two words.

## Model

| member | source | states |
|---|---|---|
| `ActiveLists.NodeList.constructor` | source/src/utils/doublylinkedlist.c:13-20 | an empty list over a pool of zeroed nodes |
| `ActiveLists.NodeList.Allocate` | source/src/cip/cipconnectionobject.c:63-78 | the node found is all zero and never on the list; none is found exactly when the list occupies the whole pool |
| `ActiveLists.NodeList.InsertAtHead` | source/src/utils/doublylinkedlist.c:51-64 | the list becomes the new element followed by the old list, all links consistent, the pool still split into listed and zero nodes |
| `ActiveLists.NodeList.InsertAtTail` | source/src/utils/doublylinkedlist.c:66-79 | the same at the other end |
| `ActiveLists.NodeList.InsertBefore` | source/src/utils/doublylinkedlist.c:81-95 | the element goes in at the position of the given node |
| `ActiveLists.NodeList.InsertAfter` | source/src/utils/doublylinkedlist.c:97-111 | the element goes in behind the given node |
| `ActiveLists.NodeList.RemoveNode` | source/src/utils/doublylinkedlist.c:113-141 | exactly that position is cut out, the other nodes keep their connection, the node is zero afterwards |
| `ActiveLists.NodeList.Destroy` | source/src/utils/doublylinkedlist.c:22-34 | every node of the pool is free afterwards |
| `ActiveLists.StillCarries` | source/src/cip/appcontype.c:401-417 | after any number of removals a node still stands for its connection if that is still listed |
| `ActiveLists.Freed` | source/src/cip/cipconnectionobject.c:80-93 | and reads as all zero if it is not |
| `ActiveLists.NextCarries` | source/src/cip/cipconnectionmanager.c:943-1016 | following `next` from the node of a connection leads to the node of the connection after it |
| `ConnectionManagers.ConnectionManager.constructor` | source/src/cip/appcontype.c:445-453 | all slots empty, nothing listed |
| `ConnectionManagers.ConnectionManager.Scan` | source/src/cip/appcontype.c:335-395 | the list walk of the searches finds the first connection that passes the test, if any does |
| `ConnectionManagers.ConnectionManager.RemoveFromActive` | source/src/cip/cipconnectionmanager.c:1711-1719 | the connection leaves the list, the rest keeps its order |
| `ConnectionManagers.ConnectionManager.Release` | source/src/cip/cipconnectionmanager.c:1684-1703 | slot empty and unlisted, everything else as it was |
| `ConnectionManagers.ConnectionManager.TransferMaster` | source/src/cip/cipioconnection.c:707-732 | socket, destination, counters and trigger timer move to the first eligible connection of the input, or nothing changes |
| `ConnectionManagers.ConnectionManager.CloseIo` | source/src/cip/cipioconnection.c:735-767 | a closing master hands over or takes exactly the listeners of its input with it |
| `ConnectionManagers.ConnectionManager.CloseSameType` | source/src/cip/appcontype.c:397-419 | the walk over the shrinking list is the transition `CloseMates`, and ends fatally exactly where that does: at a saved successor that was freed meanwhile |
| `Lifecycle.SettledWalk` | source/src/cip/appcontype.c:397-419 | as long as none of them has a socket to hand over, exactly the connections of that type on that input go, the order of the rest stays, and nothing is fatal |
| `Lifecycle.FatalRound` | source/src/cip/appcontype.c:404-407 | a round takes the saved successor off the list if and only if the last master of the input closes and the successor is a listener of it |
| `ConnectionManagers.ConnectionManager.CloseClass3OfSession` | source/src/enet_encap/encap.c:729-739 | the first class 3 connection of the session goes, and the walk, read on from its zeroed node, ends |
| `ConnectionManagers.ConnectionManager.CloseAllConnections` | source/src/cip/appcontype.c:421-429 | terminates with an empty list |
| `ConnectionManagers.ConnectionManager.ForwardClose` | source/src/cip/cipconnectionmanager.c:668-739 | closes the first listed connection with the triad if it is asked by its originator, and says which case it was |
| `ConnectionManagers.ConnectionManager.HandOverOrDropListeners` | source/src/cip/cipioconnection.c:787-807 | first half of a timeout: master handed over, or its listeners gone |
| `ConnectionManagers.ConnectionManager.DropDependents` | source/src/cip/cipioconnection.c:809-818 | second half: without a handover an owner takes its input-only, then its listen-only connections with it, or meets a freed node |
| `ConnectionManagers.ConnectionManager.HandleTimeOut` | source/src/cip/cipioconnection.c:770-821 | the whole timeout, cascade and fatal end included, is the transition `TimeOut` |
| `ConnectionManagers.ConnectionManager.SuperviseSlot` | source/src/cip/cipconnectionmanager.c:946-962 | watchdog: time out or count down |
| `ConnectionManagers.ConnectionManager.SendConnectedData` | source/src/cip/cipioconnection.c:823-862 | the EIP sequence number moves on by one modulo 2^32, the sequence count only with new data, and the frame carries both |
| `ConnectionManagers.ConnectionManager.ProduceSlot` | source/src/cip/cipconnectionmanager.c:964-1012 | one frame when due, and the trigger timer reloaded |
| `ConnectionManagers.ConnectionManager.ManageConnections` | source/src/cip/cipconnectionmanager.c:935-1018 | a tick over the linked list, in which visits may remove nodes, is the transition `Tick`, frames and fatal end included |
| `ConnectionManagers.ConnectionManager.HandleReceived` | source/src/cip/cipconnectionmanager.c:305-335 | a packet counts only for an established connection, from its originator, with a newer sequence number |
| `ConnectionManagers.ConnectionManager.HandleMessage` | source/src/enet_encap/cpf.c:125-134 | a connected explicit message re-arms the watchdog of the established connection with that ID, whatever its sequence number |
| `ConnectionManagers.ConnectionManager.GenerateNumber` | source/src/cip/cipconnectionobject.c:661-679 | although it calls itself from inside its scan, the result is the first draw that no listed connection uses, if there is one |
| `ConnectionManagers.ConnectionManager.PickOwnerSlot` | source/src/cip/appcontype.c:178-223 | the first entry that matches decides, whatever the other entries share with it |
| `ConnectionManagers.ConnectionManager.ClaimOwnerSlot` | source/src/cip/appcontype.c:189-217 | no owner: the entry's slot; an owner timed out on the same originator: the entry's slot closed through its own close function, if that is set; any other owner: a conflict |
| `ConnectionManagers.ConnectionManager.PickSharedSlot` | source/src/cip/appcontype.c:225-333 | first matching entry and its slot, or the error the entries passed over left; listeners need a producer |
| `ConnectionManagers.ConnectionManager.PickSlotOf` | source/src/cip/appcontype.c:243-269 | a slot timed out on the same originator before a free one |
| `ConnectionManagers.ConnectionManager.PickIoSlot` | source/src/cip/appcontype.c:127-176 | owner before input-only before listen-only, with the error of the first that reports one |
| `ConnectionManagers.ConnectionManager.FindFree` | source/src/cip/cipclass3connection.c:61-69 | the first free slot of a pool |
| `ConnectionManagers.ConnectionManager.CheckProduction` | source/src/cip/cipioconnection.c:191-241 | the first listed connection on the input that differs decides the error; none if all agree |
| `ConnectionManagers.ConnectionManager.OpenProducing` | source/src/cip/cipioconnection.c:478-539 | a multicast producer joins the ID of the master, and an exclusive owner takes the socket from it |
| `ConnectionManagers.ConnectionManager.JoinStream` | source/src/cip/cipioconnection.c:506-526 | the same for the case that a master exists: nothing else of either connection changes |
| `ConnectionManagers.ConnectionManager.AddNewActive` | source/src/cip/cipconnectionmanager.c:1705-1709 | established, at the head of the list; fatal exactly when the pool is used up |
| `ConnectionManagers.ConnectionManager.SetUp` | source/src/cip/cipioconnection.c:307-373 | every way out after the slot is chosen: slot written but unlisted on an error, attached on success |
| `ConnectionManagers.ConnectionManager.EstablishIo` | source/src/cip/cipioconnection.c:294-373 | the whole establishment is the transition `EstablishIo`, reply included |
| `ConnectionManagers.ConnectionManager.EstablishExplicit` | source/src/cip/cipclass3connection.c:26-55 | a free explicit slot is listed, or there is none |
| `ConnectionManagers.ConnectionManager.ForwardOpen` | source/src/cip/cipconnectionmanager.c:585-666 | the dispatch with its refusals, in their order, and its fatal ends is the transition `ForwardOpen`, for every configuration and pool |
| `ConnectionManagers.ConnectionManager.PerformAll` | source/src/cip/cipconnectionmanager.c:935-1018 | over any run of any configuration the arrays and the linked list hold exactly the states of the transition system, send its frames, halt where it halts and keep its invariants |
| `Invariants.CloseInv` | source/src/cip/cipioconnection.c:735-767 | closing any slot, listed or not, keeps slot/list agreement, single master, identities and the line of owners |
| `Invariants.CloseMastered` | source/src/cip/cipioconnection.c:735-767 | and leaves every connection that depends on a multicast input a master with its connection ID |
| `Invariants.TimeOutInv` | source/src/cip/cipioconnection.c:770-821 | the same invariants through a timeout and its cascade |
| `Invariants.TimeOutMastered` | source/src/cip/cipioconnection.c:770-821 | the same for the master through a timeout |
| `Invariants.TickFromInv` | source/src/cip/cipconnectionmanager.c:943-1016 | a tick keeps the invariants, wherever its walk stands |
| `Invariants.AttachSingleMaster` | source/src/cip/cipioconnection.c:478-539 | an open never leads to two holders of the socket of an input |
| `Invariants.DistinctTakesOwnSlot` | source/src/cip/appcontype.c:182-217 | with distinct owner inputs, the slot taken over is the one of the owner found |
| `Invariants.FirstOwnerSpeaks` | source/src/cip/cipconnectionmanager.c:1225-1243 | if the first owner found timed out on the originator that asks, so did every owner of the input |
| `Invariants.OneEstablishedOwner` | source/src/cip/appcontype.c:178-223 | two listed owners of one input are never both established, and are of the same originator |
| `Invariants.PickIoGood` | source/src/cip/appcontype.c:127-333 | the slot chosen is unlisted and reserved for the path; the list lost at most a connection timed out on the same originator and what closing it takes along; an owner's input keeps only owners that timed out on its originator |
| `Invariants.ForwardOpenInv` | source/src/cip/cipconnectionmanager.c:585-666 | every open of every configuration keeps the invariants: new numbers, no second triad, one established owner |
| `Invariants.ForwardOpenMastered` | source/src/cip/cipconnectionmanager.c:585-666 | opens keep the master of a multicast input |
| `Invariants.CloseAllEmpties` | source/src/cip/appcontype.c:421-429 | after shutdown nothing is listed and every slot is non-existent |
| `Runs.NextInv` | source/src/cip/cipconnectionmanager.c:585-739 | every step of every configuration keeps the invariants |
| `Runs.Run` | source/src/cip/cipconnectionmanager.c:585-739 | and so does every run, from any state that has them, up to where the stack goes no further |
| `Runs.EveryRunIsSound` | source/src/cip/cipconnectionmanager.c:1684-1719 | in every reachable state of every configuration a slot is listed once exactly when established or timed out, at most one multicast holder exists per input, triads and numbers are unique, and owners stand in line |
| `Runs.EstablishedOwnersDiffer` | source/src/cip/appcontype.c:178-223 | no run has two established exclusive owners on one input, and two listed ones are of the same originator |
| `Runs.EveryRunIsOwned` | source/src/cip/appcontype.c:178-223 | with distinct owner inputs no run has two exclusive owners on one input, established or timed out |
| `Runs.ExactlyOneMaster` | source/src/cip/cipioconnection.c:707-821 | on a multicast input of any configuration, a listener or an established producer never goes without exactly one holder of the socket, whose connection ID it carries |
| `Runs.RefusedOpenKeepsList` | source/src/cip/cipioconnection.c:294-373 | a refused open leaves the list alone but for closing a connection timed out on the same originator |
| `Runs.AcceptedOpenIsFirst` | source/src/cip/cipconnectionmanager.c:1705-1709 | an accepted open is the established head of the list, with the triad and input asked for |
| `Runs.AcceptedOpenIsRested` | source/src/cip/cipconnectionobject.c:919-951 | a new connection has the long watchdog value, its trigger timer due, numbering at zero and no packet received |
| `Departures.CloseExactly` | source/src/cip/cipioconnection.c:735-767 | a close in full: the connection goes, the listeners of its input exactly if it had the multicast socket and nobody could take it over; otherwise the first listed that could has socket, destination, both counters and timer; every other slot is as it was |
| `Departures.CloseUnlistedExactly` | source/src/cip/cipconnectionmanager.c:1684-1719 | closing a slot that is not listed empties it and leaves the list and all else alone |
| `Departures.ForwardCloseExactly` | source/src/cip/cipconnectionmanager.c:668-739 | the first listed connection with the triad decides: asked by its originator it is closed, with all that goes with it; asked by anybody else nothing changes; without such a connection nothing is found |
| `Departures.EndSessionExactly` | source/src/enet_encap/encap.c:729-739 | the end of a session closes the first listed class 3 connection that came through it, and nothing else |
| `Departures.SessionsExactly` | source/src/enet_encap/encap.c:729-739 | ending sessions, some perhaps repeatedly, closes of each as many class 3 connections as it ends times, in list order |
| `Departures.TimeOutExactly` | source/src/cip/cipioconnection.c:770-821 | a timeout that does not end fatally, in full: after a handover nobody goes; a last master takes the listeners of its input along, an owner all input-only and listen-only connections of it; everybody else stays, and every slot holds what it did but for the socket handed on |
| `Departures.ExplicitTimeOutExactly` | source/src/cip/cipclass3connection.c:18-23 | an explicit connection that times out goes alone |
| `Opens.SlotChoiceExactly` | source/src/cip/appcontype.c:127-333 | which slot an I/O open gets, or why none: the first owner entry named decides, else the input-only entries if one has the output, else the listen-only ones; within an entry the lowest slot timed out on the originator, else the lowest free, else out of connections; a listener needs somebody who sends |
| `Opens.PickFromExactly` | source/src/cip/appcontype.c:243-269 | within an entry: a slot timed out on the same originator is preferred even to free ones, lowest first, and there is no slot exactly if there is neither |
| `Opens.AnswerExactly` | source/src/cip/cipconnectionmanager.c:585-666 | the answer to every open, with the condition on request, list and slots for each error code |
| `Opens.SetUpExactly` | source/src/cip/cipioconnection.c:294-373 | the refusals once there is a slot, in their order: inhibit time, consumer, production of the others, producer, configuration, channels |
| `Opens.DifferenceExactly` | source/src/cip/cipioconnection.c:191-241 | the first production parameter that differs names the error |
| `Opens.RefusedExactly` | source/src/cip/cipioconnection.c:294-373 | what a refused open leaves behind: nothing, or the chosen slot cleared and holding a connection that does not exist |
| `Opens.AcceptedExactly` | source/src/cip/cipioconnection.c:478-539 | what an accepted I/O open leaves behind: every field of the new connection, the IDs and the sockets included, and everybody else unchanged but for a holder whose socket went to an owner |
| `Opens.AcceptedExplicitExactly` | source/src/cip/cipclass3connection.c:26-55 | an accepted explicit open takes the lowest free explicit slot, first on the list, and changes nothing else |
| `Arrivals.ReceiveExactly` | source/src/cip/cipconnectionmanager.c:305-335 | a packet concerns the first established connection that consumes its ID, and re-arms that exactly if it is from its originator with the first number or one 1 to 2^31 - 1 ahead; an ID nobody consumes changes nothing |
| `Arrivals.MessageExactly` | source/src/enet_encap/cpf.c:125-134 | a connected message re-arms the first established connection that consumes its ID, and changes nothing else |
| `Arrivals.NewConnectionHears` | source/src/cip/cipconnectionmanager.c:1210-1223 | after an accepted open, a packet or message with the ID the request determines re-arms exactly the new connection |
| `Visits.VisitExactly` | source/src/cip/cipconnectionmanager.c:943-1016 | a visit in full: the timeout if the time is up; otherwise the connection visited moves on by itself, sends its own frame if due, and nothing else changes |
| `Visits.QuietTickExactly` | source/src/cip/cipconnectionmanager.c:943-1016 | a tick in which nobody's time is up visits every listed connection once, in order, and sends their frames |
| `Hazards.OwnershipExactly` | source/src/cip/appcontype.c:193-217 | an admitted open keeps ownership exclusive, calls through an unset close function, or makes a second owner, according to whether the entry's slot is the timed-out owner's and, if not, whether it carries a close function |
| `Hazards.NullCallExactly` | source/src/cip/appcontype.c:204-210 | the call through an unset close function happens if and only if the entry's slot is not the timed-out owner's and no late refusal left its close function there |
| `Hazards.FatalIsReachable` | source/src/cip/appcontype.c:204-210 | a run from start-up that ends in that call |
| `Hazards.TwoOwnersAreReachable` | source/src/cip/appcontype.c:204-210 | a run from start-up that ends with two exclusive owners on one input |
| `Hazards.OpenFatalExactly` | source/src/cip/cipconnectionobject.c:63-78 | an open is fatal if and only if it is admitted and either it is misdirected to a slot without close function, or the list occupies the whole pool, the slot found is not listed and nothing else refuses |
| `Hazards.RunWithinPool` | source/src/cip/cipconnectionobject.c:63-78 | over any run the list has at most as many members as the pool has nodes |
| `Hazards.HaltsExactly` | source/src/cip/cipconnectionmanager.c:585-666 | a step is the last if and only if its draws are all in use, its open is fatal, or the walk of its tick comes to a trapped owner |
| `Hazards.RunHaltsExactly` | source/src/cip/cipconnectionmanager.c:935-1018 | a run ends early if and only if it comes to such a step |
| `Hazards.ExhaustionIsReachable` | source/src/ports/POSIX/sample_application/opener_user_conf.h:154-183 | at the sizes of the sample application, six explicit and three input-only connections leave the exclusive owner its slot but no node |
| `Hazards.OpensAreSafe` | source/src/cip/cipconnectionobject.c:63-78 | the special case of a list node per slot and distinct owner inputs, in which no open is fatal |
| `Timeouts.WalkFatalExactly` | source/src/cip/appcontype.c:397-419 | from any point of the walk over the input-only connections of an owner that is down: it meets a freed node if and only if, of what is still before it, some connection leads, and a listener stands right behind the last one in line |
| `Timeouts.TimeOutFatalExactly` | source/src/cip/cipioconnection.c:770-821 | a timeout is fatal if and only if it is that of an owner that has no multicast socket to hand over, and the list, sessions closed, is so ordered |
| `Timeouts.VisitFatalExactly` | source/src/cip/cipconnectionmanager.c:946-962 | a visit is fatal exactly when the watchdog fires for such an owner |
| `Timeouts.TickFatalExactly` | source/src/cip/cipconnectionmanager.c:943-1016 | a tick is fatal if and only if its walk comes to such a visit |
| `Timeouts.FreedNodeIsReachable` | source/src/cip/appcontype.c:404-407 | a run from start-up that ends there: point-to-point owner, listener, multicast input-only connection, and the owner times out |
| `Timeouts.TicksAreSafe` | source/src/cip/cipioconnection.c:809-818 | if each input is asked for either always or never by multicast, no tick of any run is fatal |
| `Voices.AttachVoicedExactly` | source/src/cip/cipioconnection.c:478-539 | a new connection on an input leaves its dependents an established master unless it is no owner and the master has timed out |
| `Voices.TimeOutVoiced` | source/src/cip/cipioconnection.c:770-821 | a master that times out hands over to an established connection, or nobody who depends on it stays |
| `Voices.NextVoicedExactly` | source/src/cip/appcontype.c:335-366 | on a multicast input whose dependents have an established master, a step keeps that if and only if it is not an accepted open, other than an owner's, into another slot than that of a master that has timed out |
| `Voices.RunVoiced` | source/src/cip/appcontype.c:335-366 | so over any run without such an open every dependent has an established master |
| `Voices.DumbTickIsSilent` | source/src/cip/cipconnectionmanager.c:964-1012 | while the master of a multicast input has timed out, ticks send nothing on it and change nothing about that |
| `Voices.SilenceIsReachable` | source/src/cip/cipioconnection.c:506-526 | a run from start-up after which an accepted input-only connection hears nothing in any tick |
| `Streams.StreamContinues` | source/src/cip/cipioconnection.c:707-732 | across sends, handovers by close or timeout and joining opens, the frames of an input carry one ID and numbers rising by exactly one modulo 2^32 |
| `Streams.TakeoverRestarts` | source/src/cip/cipioconnection.c:515-525 | the only exception: an accepted open that takes over becomes master, with numbers and counts from zero |
| `Counts.CountContinues` | source/src/cip/cipioconnection.c:861-864 | over the same runs each frame of the input carries the class 1 sequence count of the one before, plus one modulo 2^16 exactly if its data was new, across all handovers; in all the count advances by the frames with new data |
| `Supervision.FramesExactly` | source/src/cip/cipioconnection.c:823-862 | over any ticks a producing connection sends frames with its ID, EIP sequence numbers that rise by one and counts that differ from one frame to the next exactly with new data |
| `Supervision.ProducesExactly` | source/src/cip/cipconnectionmanager.c:964-1012 | who sends: exactly the established connections with a socket and a packet rate |
| `Supervision.FirstFrameExactly` | source/src/cip/cipconnectionmanager.c:982-1011 | no frame leaves before the time on the trigger timer has passed, and one leaves as soon as it has |
| `Supervision.IntervalIs` | source/src/cip/cipconnectionobject.c:445-457 | the producer's interval for every request: rounded down to 10 ms, in 16 bits |
| `Supervision.RateIs` | source/src/cip/cipconnectionobject.c:459-473 | the expected packet rate for every request: rounded up to 10 ms, in 16 bits |
| `Supervision.IntervalRoundsDown` | source/src/cip/cipconnectionobject.c:445-457 | the producer's interval is the T->O interval rounded down to the tick |
| `Supervision.RateRoundsUp` | source/src/cip/cipconnectionobject.c:459-473 | the expected packet rate is rounded up and zero only for a zero interval |
| `Supervision.TimeIsConserved` | source/src/cip/cipconnectionmanager.c:982-1011 | all time that passes is in frames sent, in the timer, or lost to late ticks |
| `Supervision.NoDrift` | source/src/cip/cipconnectionmanager.c:982-1011 | with ticks no longer than the interval: elapsed total + timer = initial timer + interval x frames, and the timer stays within the interval |
| `Supervision.NeverAhead` | source/src/cip/cipconnectionmanager.c:982-1011 | for any ticks, interval x frames never exceeds the elapsed total by more than one interval |
| `Supervision.ProductionFollowsTimer` | source/src/cip/cipconnectionmanager.c:964-1012 | the frames that leave a producing slot are those the timer arithmetic counts |
| `Supervision.WatchdogExact` | source/src/cip/cipconnectionmanager.c:946-962 | the watchdog fires at a visit if and only if it is the first at which the time since the last re-arm reaches the time allowed |
| `Supervision.WatchdogFiresOnce` | source/src/cip/cipconnectionmanager.c:946-962 | and at no other visit |
| `Supervision.WatchdogValues` | source/src/cip/cipconnectionobject.c:585-616 | multipliers 0 to 7 give 4 to 512 times the interval in milliseconds, at least 10 s at first, below 2^32 |
| `Supervision.WatchdogIs` | source/src/cip/cipconnectionobject.c:585-616 | four times the interval in whole milliseconds, doubled with each step of the multiplier; at first the larger of that and 10 s |
| `Supervision.WatchdogFitsExactly` | source/src/cip/cipconnectionobject.c:611-616 | the 64-bit value is exact for every 32-bit interval if and only if the multiplier is at most 39 |
| `Supervision.AllowedIs` | source/src/cip/cipconnectionobject.c:585-616 | the time allowed is the regular value once the watchdog was re-armed, the initial one before |
| `Supervision.AcceptedMoveForward` | source/src/cip/cipconnectionmanager.c:311-334 | each accepted sequence number is 1 to 2^31 - 1 ahead of the one before |
| `Supervision.ReplayWindow` | source/src/cip/cipconnectionmanager.h:150-152 | a number is accepted again only after an advance that is a positive multiple of 2^32, hence beyond 2^31 |
| `Supervision.RefusedExactly` | source/src/cip/cipconnectionmanager.c:311-334 | on an established connection a packet is turned away exactly when it is not in the window ahead |
| `Clocks.RunFollowsHistory` | source/src/cip/cipconnectionmanager.c:935-1018 | in any run through which it stays listed, a connection's state, watchdog and consumed sequence number are those its own visits, packets and messages lead to |
| `Clocks.TickClock` | source/src/cip/cipconnectionmanager.c:943-1016 | a tick passes time for a connection that stays listed once if its walk comes to it, and not otherwise |
| `Clocks.RunTimesOutExactly` | source/src/cip/cipconnectionmanager.c:946-962 | a supervised connection that stays listed through a run has timed out at its end if and only if at some visit the time since its last re-arming had reached the time allowed |
| `Clocks.NewConnectionTimesOut` | source/src/cip/cipconnectionobject.c:585-616 | the same from an accepted open on, the time allowed being the regular value or, before the first re-arming, the larger of that and 10 s |
| `Pacing.InputKeepsPace` | source/src/cip/cipconnectionmanager.c:982-1011 | over a run, across changes of the master, the time that passed an input is in the frames sent on it, in its timer, or lost to late visits; nothing is lost while visits are no longer than the interval |
| `Pacing.RunPace` | source/src/cip/cipioconnection.c:707-732 | frames and timer of the input are those of one timer that goes through the passes of the run |
| `Pacing.AtMostOnePass` | source/src/cip/cipconnectionmanager.c:943-1016 | a tick passes an input at most once |
| `Pacing.PassesExactly` | source/src/cip/cipconnectionmanager.c:964-1012 | exactly the visits to its established master pass an input, unless the watchdog fires or the interval is zero |
| `Pacing.EarlierHeirLosesTick` | source/src/cip/cipioconnection.c:716-729 | a master that times out at its visit to an heir listed before it hands the timer on unchanged, and the tick passes the input by |
| `Words.Word16` | source/src/enet_encap/endianconv.c:66-78 | a 16-bit word is read where, and only where, its octets stand |
| `Words.Word32` | source/src/enet_encap/endianconv.c:92-105 | the same for 32 bits |
| `Words.LittleEndian` | source/src/enet_encap/endianconv.c:66-105 | words are read with the least significant octet first |
| `Messages.Message.AddInt` | source/src/enet_encap/endianconv.c:133-140 | two octets written at the position, which moves on with the length; the rest of the buffer stays |
| `Messages.Message.AddDint` | source/src/enet_encap/endianconv.c:147-156 | the same for four octets |
| `Messages.Message.Move` | source/src/enet_encap/endianconv.c:255-259 | position and length move together, either way |
| `PacketFormats.CreateStructure` | source/src/enet_encap/cpf.c:234-327 | the parser with its cursor and its separate count computes `Parse`: leniency from three items on, stale fields and reads beyond the octets included |
| `PacketFormats.ReadSocketItems` | source/src/enet_encap/cpf.c:275-306 | at most two socket items; an item of another type is counted but not passed over |
| `PacketFormats.Assemble` | source/src/enet_encap/cpf.c:615-717 | appends exactly the encoding of the items, in order, and fails exactly for an unknown address type |
| `PacketFormats.AddStatusWords` | source/src/enet_encap/cpf.c:519-528 | at most two additional status words are written |
| `PacketRoundTrips.PacketParses` | source/src/enet_encap/cpf.c:234-327 | a packet with its items in order parses, to the last octet, into exactly those items |
| `PacketRoundTrips.ReplyRoundTrip` | source/src/enet_encap/cpf.c:554-717 | behind handle and timeout a reply parses as OK: data item unchanged, socket items O->T first, then T->O |
| `PacketRoundTrips.BodyLength` | source/src/enet_encap/cpf.c:438-448 | the length field is right if and only if the status has at most two words |
| `PacketRoundTrips.LongStatusRefused` | source/src/enet_encap/cpf.c:519-563 | with a longer status the parser refuses the packet |
| `PacketRoundTrips.ParseThenEncode` | source/src/enet_encap/cpf.c:234-327 | every two-item packet that parses, with a data item and a canonical address, is what the assembler makes of the result |
| `PacketRoundTrips.AcceptsExactly` | source/src/enet_encap/cpf.c:314-326 | with two items the declared lengths account for every octet |
| `PacketRoundTrips.PacketLayout` | source/src/enet_encap/cpf.c:615-717 | where item count, address item, data item and socket items stand in a packet |
| `PacketRoundTrips.ReplyLayout` | source/src/enet_encap/cpf.c:489-563 | where service, general status, additional status and payload stand in the data of a reply |
| `PacketRoundTrips.EmittedExactly` | source/src/enet_encap/cpf.c:650-717 | which socket items a reply carries: the first of each type present, O->T before T->O |
| `PacketRoundTrips.OutcomeExactly` | source/src/enet_encap/cpf.c:234-327 | for every packet, by its item count, whether it parses, is malformed or is read beyond its end |
| `Encapsulation.HeaderRoundTrip` | source/src/enet_encap/encap.c:598-618 | a header is read back as written, and the remaining octets are those beyond its length |
| `Encapsulation.HeaderLayout` | source/src/enet_encap/encap.c:277-287 | where the fields of a header stand |
| `Encapsulation.GenerateHeader` | source/src/enet_encap/encap.c:277-287 | appends the 24 octets of the header |
| `Encapsulation.SendReply` | source/src/enet_encap/cpf.c:66-86 | skipping, assembling and writing the header over the gap leaves header and items, contiguous, with the right length |
| `Encapsulation.ReplyFramed` | source/src/enet_encap/cpf.c:37-111 | the header of a finished reply reads back with command, session and context of the request, status and options 0 and the length of what follows; the items come back |
| `IoFrames.SendConnectedData` | source/src/cip/cipioconnection.c:823-910 | assembling with length 0, going back and rewriting in place leaves exactly the frame |
| `IoFrames.FrameParses` | source/src/enet_encap/cpf.c:234-327 | every frame parses as OK with exact length; in class 1 into a sequenced address with ID and EIP sequence number, in class 0 into a connection address with the ID alone |
| `IoFrames.FrameLayout` | source/src/cip/cipioconnection.c:823-910 | where everything stands in a frame, in class 0 and in class 1, with and without run/idle word |
| `IoFrames.HandleReceived` | source/src/cip/cipioconnection.c:912-961 | stripping of sequence count and run/idle word, with 16-bit lengths and reads beyond the octets, computes `Receive` |
| `IoFrames.NewerExactly` | source/src/cip/cipconnectionmanager.h:155-159 | a sequence count is newer exactly if it is 1 to 2^15 - 1 ahead: so is one with new data, and a repetition is not |
| `IoFrames.TooShortExactly` | source/src/cip/cipioconnection.c:912-961 | exactly when the consumer would read beyond the octets it was given |
| `IoFrames.BodyDelivers` | source/src/cip/cipioconnection.c:912-961 | the consumer gets exactly the produced octets: none for a heartbeat, none for a count that is not newer |
| `IoFrames.ProducedIsConsumed` | source/src/cip/cipioconnection.c:823-961 | from producer to consumer, through frame and parser, the data arrives unchanged |
| `EPaths.EncodePath` | source/src/cip/cipcommon.c:1339-1388 | appends the encoding, with the unsigned word count that may wrap |
| `EPaths.EncodedSize` | source/src/cip/cipcommon.c:1384-1388 | the closing assertion of the encoder holds if and only if the size is exactly that of a leading part of the path |
| `EPaths.PathLayout` | source/src/cip/cipcommon.c:1339-1388 | the octets of an encoded path: class, instance, attribute segments, each in 8-bit form or in 16-bit form with pad |
| `EPaths.SegmentExactly` | source/src/cip/cipcommon.c:1404-1470 | what each segment octet does to the path, and which are refused |
| `EPaths.DecodePath` | source/src/cip/cipcommon.c:1390-1470 | the decoding loop computes `Decode`, unknown segments and reads beyond the octets included |
| `EPaths.PathRoundTrip` | source/src/cip/cipcommon.c:1339-1470 | size octet and encoding decode to the same path, every octet accounted for, whatever follows |
| `EPaths.DecodeAdvances` | source/src/cip/cipcommon.c:1404-1470 | the declared words or one more are consumed, and cursor and report agree exactly without a 16-bit member segment, differing by a word for each |
| `Sessions.SessionTable.RegisterSession` | source/src/enet_encap/encap.c:435-481 | a new socket gets the first free session and a free timer, a known one its handle and an error; the tables still agree |
| `Sessions.SessionTable.UnregisterSession` | source/src/enet_encap/encap.c:489-505 | session and timers of the handle go together |
| `Sessions.SessionTable.CloseSessionOf` | source/src/enet_encap/encap.c:652-662 | session and timers of the socket go together |
| `Sessions.SessionTable.RemoveTimers` | source/src/ports/generic_networkhandler.c:389-397 | for a valid socket it terminates, with the number of its timers as measure, and clears exactly those |
| `Sessions.SessionTable.GetTimer` | source/src/ports/socket_timer.c:41-58 | the first timer of the socket, or none |
| `Sessions.SessionTable.CheckEncapsulationInactivity` | source/src/ports/generic_networkhandler.c:1143-1169 | an inactive socket loses session and timers, others nothing |
| `Sessions.SessionTable.ReceiveFailed` | source/src/ports/generic_networkhandler.c:739-746 | clearing up twice after a failed receive is clearing up once |
| `Sessions.FreeTimerForFreeSession` | source/src/enet_encap/encap.c:460-472 | as many free timers as free sessions, so registering never fails for want of a timer |
| `Sessions.AgreementMeans` | source/src/enet_encap/encap.c:435-481 | registered sockets are pairwise distinct and are exactly the sockets with a timer, once each |
| `Sessions.RegisterExactly` | source/src/enet_encap/encap.c:435-481 | each reply of register with its condition; the handle is the place of the socket's session, counted from one |
| `Sessions.RegisterThenClose` | source/src/enet_encap/encap.c:471-505 | closing the handle just given leaves the sessions as they were and the socket without timer |
| `Sessions.HeardIsKept` | source/src/ports/generic_networkhandler.c:1143-1169 | a socket heard from less than the timeout ago keeps session and timer |
| `Sessions.NextExactly` | source/src/enet_encap/encap.c:435-505 | what every event does to every session and every time stamp |
| `Sessions.NextAgrees` | source/src/enet_encap/encap.c:435-505 | register, unregister, close, inactivity, receive and receive error keep the tables in agreement |
| `Sessions.EveryRunAgrees` | source/src/enet_encap/encap.c:580-587 | after any run they agree, and a new socket is refused for want of memory exactly when all sessions are taken |
| `Instances.CipClass.AddInstances` | source/src/cip/cipcommon.c:167-248 | terminates while fewer than 65535 numbers are in use; list and counters are those of `Next` |
| `Instances.CipClass.FindFree` | source/src/cip/cipcommon.c:181-205 | the search ends at the smallest free number, before the 16-bit number wraps |
| `Instances.CipClass.AddInstance` | source/src/cip/cipcommon.c:250-262 | an instance with the number is there afterwards, listed once, although it first gets another number |
| `Instances.CipClass.DeleteInstance` | source/src/cip/cipcommon.c:1539-1571 | exactly that instance is unlinked, and both counters follow |
| `Instances.CipClass.GetMaxInstanceNumber` | source/src/cip/cipcommon.c:155-165 | the largest number, 0 without instances |
| `Instances.NewNumbersAreSmallest` | source/src/cip/cipcommon.c:179-234 | the numbers given are the n smallest free positive ones, ascending |
| `Instances.DeleteExactly` | source/src/cip/cipcommon.c:1539-1571 | exactly the instance with the number is gone, the others keep their order |
| `Instances.AddByIdExactly` | source/src/cip/cipcommon.c:250-262 | an instance with a new number comes behind all others; a known number or 0 adds nothing |
| `Instances.AddExactly` | source/src/cip/cipcommon.c:167-248 | the old instances stay in front, the new ones have the smallest free numbers, ascending |
| `Instances.EveryRunNumbered` | source/src/cip/cipcommon.c:155-262 | over any run numbers stay distinct and 16-bit, the count is the length of the list, the maximum the largest number |
| `Attributes.AttributeTable.InsertAttribute` | source/src/cip/cipcommon.c:405-451 | first unset place taken, three bits OR-ed in; a full array changes nothing |
| `Attributes.MarkSets` | source/src/cip/cipcommon.c:431-439 | marking a number changes the bit of no other number |
| `Attributes.InsertValid` | source/src/cip/cipcommon.c:405-451 | every insertion keeps the masks an exact index of the attributes |
| `Attributes.InsertAppends` | source/src/cip/cipcommon.c:420-443 | insertion order is the order of the attribute array |
| `Attributes.MasksTellTheTruth` | source/src/cip/cipcommon.c:405-451 | after any insertions the bits of number k are set exactly when some insertion that found room, on any instance, was of k with the flag |
| `Attributes.RunOwn` | source/src/cip/cipcommon.c:420-443 | each instance ends up with the first of its own insertions that its array holds, in their order |
| `Attributes.AnswerIsInsertionOrder` | source/src/cip/cipcommon.c:1097-1109 | what is sent for an instance is the marked subsequence of its own insertions that found room, in their order |
| `Attributes.AttributeTable.GetAttributeAll` | source/src/cip/cipcommon.c:1097-1109 | sends exactly the instance's marked attributes in insertion order, and meets a place without encoder exactly when attribute 0 is marked and a place is unset |

## Left out

- Sockets, the select loop, quality of service, platform ports, logging, allocation failure and application callbacks: input and output or foreign code; callbacks are taken to have no effect on the stack.
- Parsing of the connection path and of electronic keys: the parsed request is the input of Forward Open.
- Consuming over O->T multicast: opening one reports failure on success, so the model offers point-to-point and null only.
- The production inhibit timer and the last-package watchdog timer: their unsigned subtractions may wrap and obey no useful law. Which sessions close with a connection is therefore part of a tick.
- What becomes of slots and list once the stack goes no further: a run ends there, and the model promises nothing about the memory left behind.
- Clocks.NewConnectionTimesOut: takes the watchdog value as a number without bound, for any multiplier. The stack shifts a 64-bit number by 2 plus an 8-bit multiplier that nobody checks, and gets that value up to multiplier 39 only (`Supervision.WatchdogFitsExactly`).
- Streams.StreamContinues: in transport class 0 it speaks of the counter of the stack; those frames carry no EIP sequence number (source/src/cip/cipioconnection.c:836-851).
- Instances.CipClass.AddInstances: requires room for the new numbers; with all 65535 in use the 16-bit number would wrap to 0.
- Sessions.SessionTable.RemoveTimers: requires a valid socket; for the invalid one the search would find cleared timers for ever.
- Closing a session through a class 3 connection whose session is already free, and which class 3 connections close on TCP inactivity, where an index is passed for a handle.
- 64-bit integers in messages: reader and writer use opposite octet orders, so there is no round trip.
- TriggerConnections, Get Connection Data, Search Connection Data and the response messages of Forward Open and Forward Close: they would add easy members only.
- Identity, DLR, QoS, Ethernet Link and TCP/IP object attributes, strings and service dispatch: declarations and copies.
- The global packet structure after a refused packet, and the consuming socket of a slot whose channels could not all be opened, which nothing reads.
- The clock is taken to run forward: the difference of time stamps does not wrap in `Sessions.CheckInactivity`.
