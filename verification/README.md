# A-NSLP in Dafny

A model of the auction signalling daemon (A-NSLP), with machine-checked proofs about three of its parts.

**Session machines under the dispatcher.** An initiator (NI), any number of forwarders (NF) and a responder (NR) set up
an auction session with soft state: every session lives from timer to timer. `NiSpec`, `NfSpec` and `NrSpec` hold one
transition function for each role, one function for each handler, with the handler's branches, counters, timers, saved
messages and rule. `NiSession`, `NfSession` and `NrSession` hold the sessions as objects whose handlers update fields,
start timers and call the dispatcher; every handler is proved to do what the transition function says. `Services` holds
the timers and the calls that a handler can make, `SessionManager` the session table with its list of done sessions, and
`Dispatcher` the routing of events. `SystemSpec` is the node as a value, which the dispatcher object is proved to follow.
The environment is the set of timer messages under way (`Alarm`): a stopped timer has id 0, and stopping one does not
recall its message. Any event may arrive at any time.

The theorems are about every event and every run. Of one session:

- `NiTheorems`, `NfTheorems`, `NrTheorems`: invariants and exact stopping conditions; `NiChart`, `NfChart`, `NrChart`: state
  charts, written down apart from the handlers, that say for every event which state follows, what is sent, started and
  called in which order, and when the session throws.
- `NiRuns`, `NfRuns`, `NrRuns`: cleanup, installation before success, sequence numbers, bounded retransmission;
  `NiSilence`, `NrSilence`: time to the end of a silent session.
- `NiCalls`, `NfCalls`, `NrCalls`: what the installer and the client are handed, compared with a record of what was asked and
  named; `NrAnswers`: one answer for each request.
- `NiIntervals`: the refresh interval; `NiTeardown`: the client's request to end a session; `NrGrants`: the cap of the
  responder; `NfTimers`, `NfCap`: the response timer and the cap of a forwarder; `Doubles`: the timer formulas in floating
  point.

Of a node: `SystemTheorems`, `SystemRuns`, `SystemDrain` (the session table over whole runs), `SystemRouting` (which session
an event reaches), `SystemKeys` (keys are given out once), `Sending` (what a node sends, and whether it is complete), and
`Witnesses` (runs from the start for the failures listed below). Of a path of any length: `Path` (setting up),
`PathRefresh`, `PathRounds` (refreshing round after round, and tearing down) and `PathBidding`.

**The message codec.** `ObjectCodec` has the object header of section A.2 of RFC 5971 and the object bodies, `IeStore`
the store that is ordered by the sum of the two parts of its keys, `MessageCodec` the order and size of whole messages,
`MessageParser` the parser, `ParserTheorems`, `ParserOrder` and `ParserModes` what it promises. `NetMsg` and `Messages` hold the buffer
and the messages as objects that are written and read in place, `GistkaMapper` their way into a buffer and out of it.
`Wire` carries the messages of the session machines, and `WireFormat` has the bytes of each of them.

**Sequence numbers and session ids.** `SerialNumber` has the arithmetic of sections 3.1 and 3.2 of RFC 1982, `SessionId`
the text form of session ids. `AuctionRules`, `Collections`, `Runs`, `Bytes` and `Protocol` hold what the others share.

`dafny verify dfyconfig.toml` checks the project.

## How failures appear

- A handler that throws gives `Threw`, and the dispatcher removes the session. A failed assertion, a null pointer or a
  missing return gives `Halted`, and the node is `Down`. `SystemRuns.NodeStopsExactly` says exactly when that happens.
- In the codec, `Refused` and `Rejected` stand for a null result, `Raised` and `Exception` for an exception that leaves
  the parser, and `None` from a writer for an exception.

## Where the code and what is said about it disagree

The model follows the code.

- A request for an initiator session with lifetime 0 fails an assertion (src/ni_session.cpp:330), and so does an event
  that reaches the response test of AUCTIONING before the first REFRESH (src/ni_session.cpp:910,
  src/nf_session.cpp:1297). `SystemRuns.NodeStopsExactly` is the exact condition; `Witnesses.ZeroLifetimeStopsNode`,
  `Witnesses.RepeatedResponseStopsInitiator` and `Witnesses.RepeatedResponseStopsForwarder` reach it from start-up with
  ordinary events.
- A CREATE that replaces a pending one sets the lifetime without the cap (src/nf_session.cpp:627). The exact condition is
  `NfTheorems.CapIsKeptUnlessReplaced` for one event and `NfCap.OverCapExactly` for whole runs;
  `Witnesses.ReplacementLiftsOverCap` is such a run.
- After a failed installation a forwarder means to tell the initiator (src/nf_session.cpp:1045), but it answers the
  stored response, so the error goes against the direction of that response. It reaches the initiator's side if and only
  if the response was itself marked downstream (`NfTheorems.InstallErrorDirection`), and on every path it is not
  (`Path.InstallErrorMissesInitiator`).
- Wire order is meant not to matter, but the parser ignores the length of a four-byte object when it reads it and still
  compares it with the bytes left. `ParserOrder.OrderIsFreeExactly` gives the exact condition, and
  `ParserOrder.OrderMatters` a message for which the order matters.
- Ordering store keys by their sum confuses keys; `IeStores.LookupAgreesExactly` says which ones are safe.
- Every error response lacks the lifetime object that the serialiser of responses writes
  (src/msg/anslp_response.cpp:122-127), and a success response to a request without a sequence number lacks that number.
  `Sending.NodeSendsComplete` says which messages are complete. Nothing is written for an object that is missing, but the
  function that should return its size ends without a result; `Messages.AnslpMsg.Serialize` leaves the count open then.
  The bytes are in order: `Sending.NodeSendsReadably`.
- The response timer of a forwarder is not stopped by an answer (src/nf_session.cpp:1297-1346), so its message tears the
  session down if and only if no later REFRESH has restarted the timer (`NfTimers.RefreshTimerExpires`, and
  `NfTimers.CreateTimerExpires` for the timer that the answer to the CREATE starts).
  `Witnesses.AnsweredForwarderIsTornDown` is a run in which the REFRESH was answered in time.

- A session is meant to be refreshed before it expires. With an interval of two thirds of an adopted lifetime it is, but
  the formula for an unchanged lifetime is made for retries: without any, a lifetime of 30 seconds gets an interval of 40
  (src/ni_session.cpp:328-330). `NiIntervals.RefreshesInTime` has the exact condition, `PathRounds.SetUpIsInSync` carries it
  over to a whole path. The doubled lifetime wraps from 2^31 seconds on (include/ni_session.h:115), which makes the interval
  shorter (`NiIntervals.AdoptedIsTwoThirds`).

## Assumptions

- New session ids, timer ids and rule keys are fresh: ids of timers and keys come from counters, and among the random
  session ids that are drawn one is not in use.
- The import function of the IPAP library recognises a prefix of its input and tells its length. `Importable` and
  `Faithful` say that zero padding after an exported message does not change that; they are premises of the lemmas that
  need them.
- The session machines see a message as its objects; `Wire` shows that this loses nothing.

## Model

| member | source | states |
|---|---|---|
| `SystemTheorems.ProcessKeepsInv` | src/dispatcher.cpp:97-206 | every event leaves every session of the table open, with a message of one of its current timers under way, its saved messages and rule consistent, and every session object ever created in exactly one of table, done list and freed |
| `SystemTheorems.SessionStaysGood` | src/dispatcher.cpp:171-185 | one event keeps the invariant of a session of any role, given the timer messages under way after it |
| `SystemTheorems.OpenSessionWaits` | src/anslp_timers.cpp:46-61 | an open session has a timer message under way that its state listens to |
| `SystemTheorems.NewSessionIsGood` | src/dispatcher.cpp:215-237 | a session that an event opens starts with the invariant, whatever stale timer messages for its id are under way |
| `SystemTheorems.RemoveKeepsOwnership` | src/session_manager.cpp:231-266 | removal appends the session to the removal order and keeps the done list free of repeats, growing to 300 entries and no further |
| `SystemTheorems.ConcludedKeepsOwnership` | src/dispatcher.cpp:188-199 | the exception path and the final-state path each remove a session once |
| `SystemRuns.RunKeepsInv` | src/dispatcher.cpp:97-206 | whole runs keep the invariant, and the removed and freed sessions only grow at the end: nothing is freed twice or before it left the table |
| `SystemRuns.TableIsSoftState` | src/dispatcher.cpp:97-206 | after any run from start-up each key of the table holds an open session with that id and a live, current timer |
| `SystemRuns.ClosedForwarderGetsCreate` | src/nf_session.cpp:505-561 | a closed forwarder is only ever handed a CREATE, so its handler never runs into its missing return |
| `SystemRuns.NodeStopsExactly` | src/dispatcher.cpp:97-206 | an event stops the daemon if and only if it meets one of the listed assertions or null pointers of the session it is for or opens |
| `SystemDrain.TickDrains` | src/dispatcher.cpp:150-206 | a timer message never stops the daemon and lowers the measure (twice the ranks plus the messages under way); a stale one changes nothing but the queue |
| `SystemDrain.StaleIsDropped` | src/ni_session.cpp:904-906 | an outdated timer message changes no session, starts nothing and calls nobody |
| `SystemDrain.DeliveriesEnd` | src/dispatcher.cpp:97-206 | every run of timer deliveries is bounded by the measure of its first state |
| `SystemDrain.TableDrains` | src/dispatcher.cpp:97-206 | if only timer messages are delivered, in any order, the run can always go on while one is under way, ends, and ends with an empty table |
| `SystemRouting.SessionProcesses` | src/dispatcher.cpp:148-199 | an event for a session of the table is processed by that session and changes no other one |
| `SystemRouting.NewSessionProcesses` | src/dispatcher.cpp:215-237 | a client's request begins an initiator, a CREATE a responder if it is for this node or at the edge and a forwarder otherwise; any other event is dropped |
| `SystemRouting.NodeAnswers` | src/dispatcher.cpp:104-147 | an unreadable message is answered by a protocol error, a routing question changes nothing |
| `SystemKeys.KeysAreFresh` | src/auction_rule.cpp:172-185 | after any run of a node every key of every rule was given out, and none is given out again |
| `SystemKeys.InstallAdds` | src/session.cpp:246-267 | so an installation adds its objects to a rule and overwrites none |
| `Dispatchers.Dispatcher.Process` | src/dispatcher.cpp:97-206 | the dispatcher object does to its table, done list, supplies and calls exactly what the node transition says |
| `Dispatchers.Dispatcher.Route` | src/dispatcher.cpp:137-205 | the part of it for events that are for sessions |
| `Dispatchers.Dispatcher.Deliver` | src/dispatcher.cpp:171-199 | process, then remove on an exception or in the final state |
| `Dispatchers.Dispatcher.RunInTable` | src/dispatcher.cpp:173-177 | processing an event changes the session it is for and no other |
| `Dispatchers.Dispatcher.CreateSession` | src/dispatcher.cpp:215-237 | which events open a session, of which role, under which id |
| `Dispatchers.Dispatcher.RejectMessage` | src/dispatcher.cpp:135-147 | an unreadable message is answered by a protocol error in the opposite direction |
| `Dispatchers.Dispatcher.Discard` | src/session_manager.cpp:231-266 | removal, as the node sees it |
| `SystemSpec.FirstUnused` | src/session_manager.cpp:102-110 | the id that is chosen is one of those drawn and not in use |
| `SessionManagers.SessionManager.CreateUniqueId` | src/session_manager.cpp:102-110 | the drawing loop ends with the first unused id |
| `SessionManagers.SessionManager.CreateNiSession` | src/session_manager.cpp:116-137 | a new initiator stands in the table under its fresh id |
| `SessionManagers.SessionManager.CreateNfSession` | src/session_manager.cpp:143-159 | a new forwarder stands in the table under the given id |
| `SessionManagers.SessionManager.CreateNrSession` | src/session_manager.cpp:165-181 | a new responder stands in the table under the given id |
| `SessionManagers.SessionManager.GetSession` | src/session_manager.cpp:201-219 | lookup without inserting |
| `SessionManagers.SessionManager.RemoveSession` | src/session_manager.cpp:231-250 | the session leaves the table for the done list |
| `SessionManagers.SessionManager.StoreSessionAsDone` | src/session_manager.cpp:256-266 | the oldest done session is deleted when the list exceeds 300 |
| `SessionManagers.Apart` | include/ni_session.h:184 | sessions with different numbers share no object, so a step of one cannot touch another |
| `DispatcherServices.Services.StartTimer` | src/dispatcher.cpp:293-307 | a timer gets a fresh id and its message is under way |
| `DispatcherServices.Services.SendMessage` | src/dispatcher.cpp:247-259 | a message is sent, nothing else changes |
| `DispatcherServices.Services.Call` | src/dispatcher.cpp:324-390 | a call of the installer is recorded and may fail |
| `DispatcherServices.Services.AssignKeys` | src/nr_session.cpp:196-202 | the loop that stores the objects of a CREATE under fresh keys |
| `DispatcherServices.KeepChecked` | src/nr_session.cpp:489-500 | the requests that the check named, and no others, are kept |
| `DispatcherServices.ListObjects` | src/nr_session.cpp:590-595 | the loop that lists installed objects visits them in the order of their keys |
| `DispatcherServices.SetResponseObjects` | src/session.cpp:246-267 | the loop over the installed objects adds each to the rule under a fresh key |
| `DispatcherServices.Timer.Start` | src/anslp_timers.cpp:46-51 | the timer takes the id of the message that was started |
| `DispatcherServices.Timer.Restart` | src/anslp_timers.cpp:53-56 | the same as starting: the earlier message stays under way |
| `DispatcherServices.Timer.Stop` | src/anslp_timers.cpp:58-61 | a stopped timer has id 0 |
| `Protocol.AssignAt` | src/auction_rule.cpp:172-185 | exactly the consecutive fresh keys are taken, and the i-th object stands under the i-th of them |
| `Protocol.ListingInOrder` | src/nr_session.cpp:590-595 | the objects of a rule are listed by ascending keys |
| `Protocol.ListingOfAssign` | src/session.cpp:257-262 | objects that were put into a rule one by one are listed in that order |
| `Protocol.InstallFirst` | src/session.cpp:246-267 | installed objects get fresh keys in the rule and keep their number and their order |
| `NiSessions.NiSession.ProcessEvent` | src/ni_session.cpp:1151-1184 | the object steps as the initiator transition function |
| `NiSessions.NiSession.HandleClose` | src/ni_session.cpp:399-465 | handler of CLOSE |
| `NiSessions.NiSession.SetupSession` | src/ni_session.cpp:299-336 | the refresh interval and the response timeout of a requested lifetime, or the failed assertion |
| `NiSessions.NiSession.OpenSession` | src/ni_session.cpp:419-456 | the CREATE that is sent, the timer, and the dependence on the return queue |
| `NiSessions.NiSession.HandlePending` | src/ni_session.cpp:471-595 | handler of PENDING |
| `NiSessions.NiSession.CreateAnswered` | src/ni_session.cpp:552-585 | adoption of the granted lifetime, and the request to the client |
| `NiSessions.NiSession.AskToInstall` | src/ni_session.cpp:570-578 | the response objects become requests of a new rule |
| `NiSessions.NiSession.HandlePendingInstalling` | src/ni_session.cpp:601-731 | handler of PENDING_INSTALLING |
| `NiSessions.NiSession.InstallAnswered` | src/ni_session.cpp:677-721 | equal counts open the auction, unequal ones give up |
| `NiSessions.NiSession.InstallUnanswered` | src/ni_session.cpp:613-646 | the client is asked again at most K times |
| `NiSessions.NiSession.GiveUp` | src/ni_session.cpp:650-665 | removal of what was installed, and a REFRESH with lifetime 0 |
| `NiSessions.NiSession.HandleAuctioning` | src/ni_session.cpp:738-999 | handler of AUCTIONING |
| `NiSessions.NiSession.TearDown` | src/ni_session.cpp:803-822 | installed objects are removed and confirmed, otherwise the session closes |
| `NiSessions.NiSession.RefreshTimerFired` | src/ni_session.cpp:761-778 | a new REFRESH and the response timer |
| `NiSessions.NiSession.RefreshUnanswered` | src/ni_session.cpp:783-824 | retransmission, then teardown |
| `NiSessions.NiSession.RefreshAnswered` | src/ni_session.cpp:925-989 | back to the refresh timer, or teardown |
| `NiSessions.NiSession.HandlePendingTeardown` | src/ni_session.cpp:1005-1142 | handler of PENDING_TEARDOWN |
| `NiSessions.NiSession.BuildRefreshMessage` | src/ni_session.cpp:249-268 | a REFRESH carries the next sequence number and the lifetime |
| `NiSessions.NiSession.NextMsn` | src/session.cpp:130-133 | the next sequence number, modulo 2^32 |
| `NiTheorems.StepStaysGood` | src/ni_session.cpp:1151-1184 | timer discipline: the pending states have the response timer live, AUCTIONING exactly one of two, a live response timer there implies a saved REFRESH; counters stay within the retry limit; in AUCTIONING requests and responses are equal in number |
| `NiTheorems.AuctioningStaysGood` | src/ni_session.cpp:829-999 | the same for the events of AUCTIONING other than timers |
| `NiTheorems.StopsExactly` | src/ni_session.cpp:738-999 | the initiator stops the daemon in exactly these cases; retransmission never misses its message |
| `NiTheorems.RefreshIntervalIsLeast` | src/ni_session.cpp:328-329 | the interval is the least R with (K + 0.5) * 1.5 * R >= lifetime (section 3.7 of RFC 2205), and 0 only for lifetime 0 |
| `NiTheorems.ResponseTimeoutRange` | src/ni_session.cpp:334-334 | R / 2 <= T <= 2 R for every random number |
| `NiChart.ActFollows` | src/ni_session.cpp:1151-1184 | on every event an initiator goes to the state of its chart, does in order what the chart says, and throws exactly when the chart says so |
| `NiChart.ActRemembers` | src/ni_session.cpp:1151-1184 | every message that is built takes the next number, and the last CREATE and REFRESH are kept |
| `NiIntervals.AdoptedIsTwoThirds` | include/ni_session.h:115-115 | the interval R of an adopted lifetime L has 3R <= 2L < 3(R + 1) if and only if 2L does not wrap at 2^32, and R < L in any case |
| `NiIntervals.RequestedEndsFirst` | src/ni_session.cpp:328-330 | the interval of a requested lifetime is shorter than it if and only if there is a retry and the lifetime is at least two seconds |
| `NiIntervals.RefreshesInTime` | src/ni_session.cpp:559-566 | a session refreshes within its lifetime if and only if the path has changed the lifetime, or it has a retry and was granted at least two seconds |
| `NiIntervals.ActIntervalStep` | src/ni_session.cpp:559-566 | only a request and the answer to the CREATE change the interval, each to exactly its value |
| `NiIntervals.ActRefreshTimerStep` | src/ni_session.cpp:700-712 | AUCTIONING starts the refresh timer for that interval, a successful refresh starts it again, and nothing else does |
| `NiIntervals.IntervalIsKept` | src/ni_session.cpp:559-566 | in every run the interval is that of the lifetime asked for, or two thirds of the other one that was granted |
| `NiTeardown.TeardownBegins` | src/ni_session.cpp:829-845 | a teardown request in AUCTIONING sends one REFRESH with lifetime 0 and the next number |
| `NiTeardown.TeardownIsFinal` | src/ni_session.cpp:829-845 | in every run after it the lifetime stays 0, and every REFRESH, new or repeated, carries it |
| `NiTeardown.AnswerEnds` | src/ni_session.cpp:910-990 | any answer to that REFRESH, success or error, leads to PENDING_TEARDOWN with the removal of the rule, or to CLOSE when nothing is installed |
| `NiTeardown.TeardownOfPending` | src/ni_session.cpp:530-545 | a teardown request in PENDING sends a REFRESH with lifetime 0 and closes |
| `NiTeardown.GivingUpTellsPath` | src/ni_session.cpp:601-721 | PENDING_INSTALLING closes exactly on a teardown request, a last timeout or a wrong number of objects, and tells the path by a REFRESH with lifetime 0 |
| `NiCalls.CallsAreAsRecalled` | src/ni_session.cpp:568-590 | after any run, whatever comes next: the client is asked to install exactly the objects of the response, and what is removed has as many |
| `NiCalls.AskedListsResponse` | src/ni_session.cpp:568-590 | in the order of the response |
| `Doubles.RefreshIntervalOfDoubles` | src/ni_session.cpp:328-329 | rounding the division to a double does not change the interval, for any lifetime and number of retries |
| `Doubles.ResponseTimeoutOfDoubles` | src/ni_session.cpp:334-334 | rounding three operations to doubles leaves the timeout within its range and changes it by at most one second, and only where the exact product is a whole number |
| `NiRuns.BoundedRetransmission` | src/ni_session.cpp:482-509 | over any run, at most K + 1 CREATEs and K + 1 removals are issued and the counters stay within K |
| `NiRuns.BoundedRefresh` | src/ni_session.cpp:783-796 | after the first transmission of a REFRESH at most K more follow before the next cycle begins |
| `NiRuns.RuleIsRemoved` | src/ni_session.cpp:798-823 | a run that starts in AUCTIONING with installed objects closes only through PENDING_TEARDOWN and after a removal of exactly those objects |
| `NiRuns.DrawsAreCounted` | src/session.cpp:130-133 | the sequence number is the initial one plus the number of draws, modulo 2^32, and one event draws at most one |
| `NiRuns.NewRefreshIsFresh` | src/ni_session.cpp:249-268 | a new REFRESH is greater than the last accepted number while fewer than 2^31 numbers were drawn since, across wrap-around |
| `NiSilence.AlarmStep` | src/ni_session.cpp:1151-1184 | an outdated timer changes nothing, a current one lowers the rank and starts at most one timer |
| `NiSilence.SilenceCloses` | src/ni_session.cpp:471-1100 | the exact time to the end of an initiator that hears nothing but its timers, in any state, and how many CREATEs, REFRESHes and removals it makes until then |
| `NiSilence.SilenceIsBounded` | src/ni_session.cpp:1079-1102 | so at most R + 2 (K + 1) T from a running refresh timer |
| `NfSessions.NfSession.ProcessEvent` | src/nf_session.cpp:1504-1536 | the object steps as the forwarder transition function |
| `NfSessions.NfSession.HandleClose` | src/nf_session.cpp:505-561 | handler of CLOSE: the lifetime is capped on first acceptance |
| `NfSessions.NfSession.ProcessStateClose` | src/nf_session.cpp:428-502 | acceptance of a CREATE and its two error paths |
| `NfSessions.NfSession.CheckOrPassOn` | src/nf_session.cpp:211-255 | the rule, and the choice between checking and passing on |
| `NfSessions.NfSession.BuildCreateMessage` | src/nf_session.cpp:351-395 | the CREATE for the next node: the smaller lifetime, all objects |
| `NfSessions.NfSession.CreateAgain` | src/nf_session.cpp:749-798 | shutdown, retransmission, or replacement of a pending CREATE |
| `NfSessions.NfSession.HandlePendingCheck` | src/nf_session.cpp:566-726 | handler of PENDING_CHECK |
| `NfSessions.NfSession.CheckAnswered` | src/nf_session.cpp:664-713 | the requests that the check named are kept, and the CREATE goes on |
| `NfSessions.NfSession.HandlePending` | src/nf_session.cpp:732-881 | handler of PENDING |
| `NfSessions.NfSession.CreateAnswered` | src/nf_session.cpp:842-868 | success starts the installation, failure is passed on |
| `NfSessions.NfSession.HandlePendingInstalling` | src/nf_session.cpp:887-1061 | handler of PENDING_INSTALLING |
| `NfSessions.NfSession.InstallAnswered` | src/nf_session.cpp:985-1028 | the stored response goes on with the installed objects appended in the order of their keys |
| `NfSessions.NfSession.InstallMismatched` | src/nf_session.cpp:1029-1050 | a wrong number of objects tears the path down |
| `NfSessions.NfSession.HandleAuctioning` | src/nf_session.cpp:1070-1384 | handler of AUCTIONING |
| `NfSessions.NfSession.RefreshIn` | src/nf_session.cpp:1081-1149 | freshness check, cap, and forwarding of a REFRESH |
| `NfSessions.NfSession.RefreshAnswered` | src/nf_session.cpp:1297-1373 | the state timer is restarted, or the session is torn down |
| `NfSessions.NfSession.TearDown` | src/nf_session.cpp:1207-1223 | installed objects are removed and confirmed, otherwise the session closes |
| `NfSessions.NfSession.HandlePendingTeardown` | src/nf_session.cpp:1390-1496 | handler of PENDING_TEARDOWN |
| `NfTheorems.StepStaysGood` | src/nf_session.cpp:1504-1536 | an open forwarder has its state timer live, its saved CREATE or response, and equal counts in AUCTIONING |
| `NfTheorems.CreateAgainIsGood` | src/nf_session.cpp:603-631 | also when a pending CREATE is repeated, shut down or replaced |
| `NfTheorems.StopsExactly` | src/nf_session.cpp:1297-1298 | the forwarder stops the daemon in exactly these cases |
| `NfTheorems.CapIsKeptUnlessReplaced` | src/nf_session.cpp:624-631 | the lifetime exceeds the cap after an event if and only if that event is a CREATE that replaces a pending one with a larger lifetime |
| `NfTheorems.InstallErrorDirection` | src/nf_session.cpp:1036-1049 | in every invariant state a wrong number of installed objects closes the session with a REFRESH of lifetime 0 and an error that goes against the stored response: upstream if and only if that response was marked downstream |
| `NfTheorems.ResponseOfAnyDirection` | src/nf_session.cpp:830-858 | a success response is stored whatever its direction |
| `NfTheorems.AlarmStep` | src/nf_session.cpp:1201-1261 | an outdated timer changes nothing, a current one lowers the rank |
| `NfChart.ActFollows` | src/nf_session.cpp:1504-1536 | on every event a forwarder goes to the state of its chart, does in order what the chart says, and throws exactly when the chart says so |
| `NfChart.ActRemembers` | src/nf_session.cpp:1504-1536 | number, lifetime and saved messages are those of the CREATE and the REFRESH last taken up |
| `NfCalls.CallsAreAsRecalled` | src/nf_session.cpp:842-858 | after any run, whatever comes next: the installer checks the objects of the CREATE last accepted, and installs exactly those that the check has named, or all at a node that takes no part |
| `NfCalls.AskedListsCreate` | src/nf_session.cpp:430-500 | in the order of the CREATE |
| `NfCalls.Installs` | src/nf_session.cpp:842-858 | in PENDING the success of the CREATE, and nothing else, has the rule installed |
| `NfTimers.ResponseTimerChanges` | src/nf_session.cpp:1078-1149 | in AUCTIONING the response timer changes if and only if a REFRESH with a greater number arrives; its answer does not change it |
| `NfTimers.TimerTearsDown` | src/nf_session.cpp:1201-1261 | a timer message tears the session down if and only if it is that of the response timer or of the state timer |
| `NfTimers.AnsweredRefreshStillExpires` | src/nf_session.cpp:1297-1346 | a REFRESH and its success response are followed by a teardown when the message of the response timer arrives |
| `NfTimers.ExpiresUnlessRestarted` | src/nf_session.cpp:1201-1223 | after any run the message of a response timer tears the session down if and only if no event has started the timer anew |
| `NfTimers.RefreshTimerExpires` | src/nf_session.cpp:1078-1149 | so it is for the timer of an accepted REFRESH, answered or not |
| `NfTimers.CreateTimerExpires` | src/nf_session.cpp:842-858 | and for the timer that the success of the CREATE starts |
| `NfCap.OverCapExactly` | src/nf_session.cpp:624-631 | at the end of any run the lifetime exceeds the cap if and only if a replacing CREATE has lifted it and no event has set it to at most the cap since |
| `Witnesses.ReplacementLiftsOverCap` | src/nf_session.cpp:624-631 | a CREATE and its replacement leave a new forwarder with a lifetime over its cap |
| `Witnesses.AnsweredForwarderIsTornDown` | src/nf_session.cpp:1201-1223 | a run in which a REFRESH is accepted and answered, and its timer tears the session down |
| `Witnesses.RepeatedResponseStopsForwarder` | src/nf_session.cpp:1297-1298 | from start-up: a forwarder reaches AUCTIONING, and a repeated response stops its node |
| `Witnesses.RepeatedResponseStopsInitiator` | src/ni_session.cpp:910-911 | from start-up: an initiator reaches AUCTIONING, and a repeated response stops its node |
| `Witnesses.ZeroLifetimeStopsNode` | src/ni_session.cpp:325-330 | from start-up: a request with lifetime 0 stops the node |
| `NfRuns.SuccessAfterInstallation` | src/nf_session.cpp:830-857 | a forwarder reports success only after a matching success from downstream and then an installation of as many objects as were requested |
| `NfRuns.RuleIsRemoved` | src/nf_session.cpp:1201-1287 | an auctioning forwarder with installed objects closes only through PENDING_TEARDOWN and after a removal of exactly those objects |
| `NfRuns.MsnsAscend` | src/nf_session.cpp:1107-1122 | in AUCTIONING the session number changes only to greater ones |
| `NfRuns.ReplayIsRejected` | src/nf_session.cpp:1107-1110 | a number the session had earlier is rejected while the unwrapped counter has advanced by at most 2^31 since |
| `NfRuns.AcceptedRefreshRises` | src/nf_session.cpp:1115-1132 | an accepted REFRESH with non-zero lifetime raises the unwrapped counter, whose residue is its number |
| `NrSessions.NrSession.ProcessEvent` | src/nr_session.cpp:955-984 | the object steps as the responder transition function |
| `NrSessions.NrSession.HandleClose` | src/nr_session.cpp:307-429 | handler of CLOSE |
| `NrSessions.NrSession.AcceptCreate` | src/nr_session.cpp:351-412 | acceptance: check, immediate success, or error |
| `NrSessions.NrSession.SaveAuctionRule` | src/nr_session.cpp:169-212 | the objects of the CREATE replace the requests |
| `NrSessions.NrSession.HandlePending` | src/nr_session.cpp:434-515 | handler of PENDING |
| `NrSessions.NrSession.CheckUnanswered` | src/nr_session.cpp:446-478 | the check is repeated, then given up |
| `NrSessions.NrSession.CheckAnswered` | src/nr_session.cpp:483-509 | what the check kept is installed |
| `NrSessions.NrSession.HandlePendingInstalling` | src/nr_session.cpp:522-630 | handler of PENDING_INSTALLING |
| `NrSessions.NrSession.InstallUnanswered` | src/nr_session.cpp:534-560 | the installation is repeated, then given up |
| `NrSessions.NrSession.InstallAnswered` | src/nr_session.cpp:571-602 | success with the installed objects |
| `NrSessions.NrSession.InstallMismatched` | src/nr_session.cpp:603-623 | a wrong number of objects is an error |
| `NrSessions.NrSession.HandleAuctioning` | src/nr_session.cpp:636-836 | handler of AUCTIONING |
| `NrSessions.NrSession.RefreshIn` | src/nr_session.cpp:646-730 | freshness check, cap, and answer |
| `NrSessions.NrSession.TearDown` | src/nr_session.cpp:802-817 | installed objects are removed and confirmed, otherwise the session closes |
| `NrSessions.NrSession.HandlePendingTeardown` | src/nr_session.cpp:843-947 | handler of PENDING_TEARDOWN |
| `NrTheorems.StepStaysGood` | src/nr_session.cpp:955-984 | an open responder has its state timer live, its saved CREATE, and equal counts in AUCTIONING |
| `NrTheorems.StopsExactly` | src/nr_session.cpp:743-756 | the responder stops the daemon in exactly these cases |
| `NrTheorems.AlarmStep` | src/nr_session.cpp:794-829 | an outdated timer changes nothing, a current one lowers the rank |
| `NrChart.ActFollows` | src/nr_session.cpp:955-987 | on every event a responder goes to the state of its chart, does in order what the chart says, and throws exactly when the chart says so |
| `NrChart.ActRemembers` | src/nr_session.cpp:955-987 | the CREATE, its route, and the number of the last request that was granted |
| `NrGrants.CapIsKept` | src/nr_session.cpp:658-663 | in every run no lifetime of a responder, and none that it grants, exceeds its cap |
| `NrGrants.RefreshGrants` | src/nr_session.cpp:676-720 | an accepted REFRESH is granted the minimum of request and cap; the session takes it and its timer runs for exactly that, or it ends when that is 0 |
| `NrCalls.CallsAreAsRecalled` | src/nr_session.cpp:489-504 | after any run, whatever comes next: each check, first or repeated, carries the objects of the CREATE, each installation exactly those that the check has named, and both are repeated no more often than the configuration allows |
| `NrCalls.AskedListsCreate` | src/nr_session.cpp:196-202 | in the order of the CREATE |
| `NrCalls.Installs` | src/nr_session.cpp:489-545 | the answer to the check has the rule installed, an unconfirmed installation is repeated, and nothing else installs |
| `NrAnswers.OneAnswerEach` | src/nr_session.cpp:955-987 | in every run there are as many responses as requests, but for a CREATE that is still being worked on |
| `NrAnswers.ActAnswers` | src/nr_session.cpp:955-987 | each response goes against the request with its number, and its code tells success, refusal and failure apart |
| `NrSilence.SilenceCloses` | src/nr_session.cpp:435-900 | the exact time to the end of a responder that hears nothing but its timer, with one error if it owes an answer, and the number of its removals |
| `NrRuns.SuccessAfterInstallation` | src/nr_session.cpp:583-601 | a participating responder reports success only after a check and then an installation of as many objects as the check kept |
| `NrRuns.RuleIsRemoved` | src/nr_session.cpp:704-722 | an auctioning responder with installed objects closes only through PENDING_TEARDOWN and after a removal of exactly those objects |
| `NrRuns.MsnsAscend` | src/nr_session.cpp:673-683 | in AUCTIONING the session number changes only to greater ones |
| `NrRuns.ReplayIsRejected` | src/nr_session.cpp:673-676 | a number the session had earlier is rejected while the unwrapped counter has advanced by at most 2^31 since |
| `NrRuns.AcceptedRefreshRises` | src/nr_session.cpp:678-691 | an accepted REFRESH with non-zero lifetime raises the unwrapped counter, whose residue is its number |
| `SerialNumber.GreaterIsForwardDistance` | src/msg/ntlp_msg.cpp:149-155 | the comparison is true exactly for a forward distance between 1 and 2^31 - 1 (section 3.2 of RFC 1982) |
| `SerialNumber.FreshAhead` | src/msg/ntlp_msg.cpp:149-155 | a number less than 2^31 ahead is greater, across wrap-around |
| `SerialNumber.StaleBehind` | src/msg/ntlp_msg.cpp:149-155 | a number at most 2^31 behind is not greater |
| `SerialNumber.UnwrappedRises` | src/msg/ntlp_msg.cpp:149-155 | accepted numbers trace a strictly increasing counter with the numbers as residues |
| `SerialNumber.OldNumberIsStale` | src/msg/ntlp_msg.cpp:149-155 | an earlier number of such a sequence is not greater than the last while the counter advanced by at most 2^31 |
| `Path.PathNegotiates` | src/nf_session.cpp:351-395 | for any number of forwarders: initiator, responder and response agree on the minimum of the requested lifetime and all caps, no forwarder has less, and the response carries the objects of the responder and then of the forwarders from last to first |
| `Path.TravelNegotiates` | src/nf_session.cpp:994-1027 | the induction over the forwarders: each lifetime is the minimum of the request and the caps so far |
| `Path.TravelSucceedsExactly` | src/nr_session.cpp:334-356 | the session is set up along the path if and only if every node accepts and installs as many objects as it is expected to |
| `Path.PassOnCaps` | src/nf_session.cpp:532-557 | one forwarder caps its own lifetime and that of the CREATE |
| `Path.PassBackExtends` | src/nf_session.cpp:1001-1027 | one forwarder appends its installed objects |
| `Path.AnswerCaps` | src/nr_session.cpp:583-601 | the responder caps and answers with its installed objects |
| `Path.ConcludeAdopts` | src/ni_session.cpp:552-578 | the initiator adopts the lifetime and installs one object for each in the response |
| `Path.InstallErrorMissesInitiator` | src/nf_session.cpp:1036-1049 | at every forwarder of every path the stored response is marked against the CREATE, so the error of a failed installation goes downstream |
| `Path.LeastIsMinimum` | src/session.cpp:143-150 | the capped lifetime is the minimum of the lifetime and the caps |
| `Path.TakesPart` | src/session.cpp:160-200 | which nodes of a path take part in a request, by its registered selection number |
| `Path.TravelSynchronises` | src/nf_session.cpp:505-561 | a path that is set up is auctioning everywhere under the number of its CREATE |
| `PathRefresh.RefreshPasses` | src/nf_session.cpp:1078-1149 | a REFRESH that is newer than all sessions arrives at the responder as it was sent, through any number of forwarders; the success comes back as it was answered; each node takes its own capped lifetime with a timer for it, or is torn down if that is 0 |
| `PathRefresh.RefreshGoesDown` | src/nf_session.cpp:1078-1149 | one forwarder sends an accepted REFRESH on unchanged and starts its response timer |
| `PathRefresh.StaleRefreshStays` | src/nf_session.cpp:1103-1110 | a REFRESH that is not newer changes nothing and goes no further |
| `PathRefresh.ResponseGoesUp` | src/nf_session.cpp:1297-1346 | one forwarder sends the response on unchanged and prolongs its session, or tears it down |
| `PathRefresh.RefreshEnds` | src/nr_session.cpp:640-720 | the responder answers what it grants, and is prolonged by that or torn down |
| `PathRounds.RoundRefreshes` | src/ni_session.cpp:738-800 | one round on a path without loss: all sessions are prolonged by the negotiated lifetime, and every timer that is started runs longer than the initiator waits before its next REFRESH |
| `PathRounds.RoundsGoOn` | src/ni_session.cpp:910-960 | so for any number of rounds |
| `PathRounds.SetUpIsInSync` | src/ni_session.cpp:552-578 | a path that was set up refreshes so if and only if some cap has changed the lifetime, or the initiator has a retry and asked for at least two seconds |
| `PathRounds.TeardownPasses` | src/ni_session.cpp:829-845 | a teardown request at the initiator makes every session of the path have its rule removed, or close |
| `PathBidding.BidReachesServer` | src/nf_session.cpp:1155-1187 | a bid of the client reaches the installer at the responder with exactly its objects, and changes no session |
| `PathBidding.BidReachesClient` | src/nf_session.cpp:1155-1187 | a bid of the server reaches the client in the same way |
| `PathBidding.BiddingIsCarried` | src/nf_session.cpp:1155-1187 | any number of forwarders pass a BIDDING on as it came |
| `ObjectCodec.HeaderRoundTrip` | src/msg/anslp_object.cpp:239-246 | unpacking inverts packing if and only if the type is below 4096 and the body has at most 4095 words |
| `ObjectCodec.HeaderFields` | src/msg/anslp_object.cpp:126-188 | unpacking ignores the reserved bits (section A.2 of RFC 5971) |
| `ObjectCodec.HeaderTruncates` | src/msg/anslp_object.cpp:239-246 | an oversized length comes back reduced to 4096 words |
| `ObjectCodec.Padding` | src/msg/anslp_ipap_message.cpp:201-207 | fewer than four bytes, up to a full word |
| `ObjectCodec.SizeIsExact` | src/msg/anslp_ipap_message.cpp:192-220 | announced size, written body and padding agree for every payload length |
| `ObjectCodec.DecodeEncode` | src/msg/anslp_object.cpp:192-227 | parsing inverts writing for exactly the valid objects whose body fits 4095 words, whatever follows |
| `ObjectCodec.DecodeEncodeIpap` | src/msg/anslp_ipap_message.cpp:275-318 | an oversized IPAP message never comes back as it was |
| `ObjectCodec.DecodeProgress` | src/msg/anslp_object.cpp:148-227 | a parsed object takes at least two whole words, is valid, and can be written again |
| `ObjectCodec.IpapExactly` | src/msg/anslp_ipap_message.cpp:290-315 | an IPAP object is taken if and only if its body is a recognised message and zero bytes up to its end |
| `ObjectCodec.InfoExactly` | src/msg/information_code.cpp:100-145 | strict parsing takes an information code if and only if the half that tells what it is about is zero |
| `ObjectCodec.DecodeElsewhere` | src/msg/anslp_object.cpp:148-188 | an object parses in any other place, unless its header promises more bytes than follow |
| `ObjectCodec.ScalarOf` | src/msg/anslp_ie.cpp:118-140 | the registered four-byte objects and their type codes |
| `IeStores.SetAllRefines` | src/msg/anslp_msg.cpp:504-519 | any sequence of set_object calls on the sum-ordered map refines the map keyed by type and number; IPAP messages get the numbers 1 to n |
| `IeStores.SetObjectRefines` | src/msg/anslp_msg.cpp:504-519 | one such call |
| `IeStores.ReprAt` | include/msg/ie_object_key.h:86-89 | reachable keys have pairwise distinct sums |
| `IeStores.LookupAgreesExactly` | include/msg/ie_object_key.h:86-89 | lookups agree with the pair-keyed map for every content if and only if the key is one that messages use or lies below all objects |
| `IeStores.ListingOfRepr` | src/msg/ie_store.cpp:92-94 | iteration visits the unique objects by type and then the IPAP messages in order |
| `IeStores.MaxIpapSequence` | src/msg/ie_store.cpp:197-214 | the largest IPAP sequence number is the number of IPAP messages |
| `IeStores.EqualStores` | src/msg/ie_store.cpp:85-107 | stores with equal objects belong to equal contents |
| `IeStores.IeStore.Insert` | src/msg/ie_store.cpp:155-167 | an equivalent key keeps its place and gets the new object |
| `IeStores.IeStore.Lookup` | src/msg/ie_store.cpp:127-140 | lookup by the sum |
| `IeStores.IeStore.GetMaxSequence` | src/msg/ie_store.cpp:197-214 | the loop finds the largest sequence number of a type |
| `IeStores.IeStore.Copy` | src/msg/ie_store.cpp:55-68 | the loop sets every entry in a fresh store, which ends up with the same entries |
| `IeStores.CopyIsSame` | src/msg/ie_store.cpp:55-68 | setting the entries one by one restores the store, keys included |
| `IeStores.IeStore.Equals` | src/msg/ie_store.cpp:85-107 | the one-directional loop decides whether two stores hold the same objects |
| `AuctionRules.AuctionRule.Copy` | src/auction_rule.cpp:95-120 | a deep copy has the same requests and responses |
| `AuctionRules.AuctionRule.Equals` | src/auction_rule.cpp:227-266 | the comparison decides equality of both maps |
| `AuctionRules.SameObjects` | src/auction_rule.cpp:232-246 | one of its one-directional loops decides equality of two maps |
| `AuctionRules.AuctionRule.SetRequestObject` | src/auction_rule.cpp:136-151 | one request is set, nothing else changes |
| `AuctionRules.AuctionRule.SetResponseObject` | src/auction_rule.cpp:153-170 | one response is set, nothing else changes |
| `Collections.AgreementIsEquality` | src/msg/ie_store.cpp:85-107 | equal sizes and agreement on the keys of one map mean equal maps |
| `Collections.MatchingIsEquivalence` | src/auction_rule.cpp:227-266 | the one-directional comparison is an equivalence relation whenever the equality of objects is one |
| `MessageCodec.AnnouncedSize` | src/msg/anslp_msg.cpp:376-394 | the announced size is never smaller than what is written, and equal if and only if the message holds only what its type writes |
| `MessageCodec.CheckOfExact` | src/msg/anslp_bidding.cpp:172-194 | a message that holds only what its type writes passes its check if and only if it is a response, or is complete and, as a BIDDING, has an IPAP message |
| `MessageCodec.CheckExactly` | src/msg/anslp_response.cpp:164-182 | what the check of each type guarantees: all objects of the type except for responses, nothing else except for CREATEs and BIDDINGs, and an IPAP message in a BIDDING |
| `MessageCodec.TypeCode` | src/msg/anslp_ie.cpp:124-128 | the registered message types |
| `MessageParser.RoundTrip` | src/msg/anslp_msg.cpp:194-291 | a message that passes its check and holds only what its type writes, all of it valid and fitting, is read back equal, with every byte read and no error |
| `ParserTheorems.RoundTripExactly` | src/msg/anslp_msg.cpp:194-291 | reading inverts writing if and only if all bodies have at most 4095 words |
| `MessageParser.ParseAccounts` | src/msg/anslp_msg.cpp:194-291 | on every byte string, a strictly accepted message was read to the last byte without error, is not empty, and has at most one object for each two words |
| `MessageParser.ObjectsAccount` | src/msg/anslp_msg.cpp:227-273 | the object loop ends and accounts for every byte |
| `MessageParser.WrittenRebuilds` | src/msg/anslp_create.cpp:124-149 | setting the written objects in a new message gives the message that was written if and only if that holds only what its type writes |
| `ParserTheorems.ParseIsFixedPoint` | src/msg/anslp_msg.cpp:194-291 | a strictly accepted message comes back equal from writing and reading if and only if it passes its check and holds only what its type writes |
| `ParserTheorems.MspecObjectsInOrder` | src/msg/anslp_create.cpp:358-376 | get_mspec_objects gives the IPAP messages in the order in which they were set, if and only if no unexpected type is there |
| `ParserTheorems.InsertionOrderSurvives` | src/msg/anslp_create.cpp:346-376 | that order survives any number of copies and of cycles of writing and reading, in any mixture |
| `ParserOrder.OrderIsFreeExactly` | src/msg/anslp_msg.cpp:227-273 | every reordering of an accepted body that keeps the order of the IPAP messages is accepted with equal content if and only if no object header promises more bytes than its object has |
| `ParserOrder.MessageOrderIsFree` | src/msg/anslp_msg.cpp:227-273 | the same for whole messages |
| `ParserOrder.OrderMatters` | src/msg/anslp_msg.cpp:227-273 | two objects that are accepted in one order and refused in the other |
| `ParserOrder.ReorderedContent` | src/msg/anslp_msg.cpp:397-408 | reordered objects without duplicates make equal messages |
| `ParserOrder.NoDuplicatesCounts` | src/msg/anslp_msg.cpp:254-269 | the duplicate test of the loop means that no unique type occurs twice |
| `ParserModes.ModesAgree` | src/msg/anslp_msg.cpp:194-291 | strict parsing accepts exactly what lenient parsing accepts without an error, and reads the same message |
| `ParserModes.StrictStopsAtFirstError` | src/msg/anslp_msg.cpp:227-273 | what lenient parsing accepts with errors, strict parsing rejects with the first of them |
| `Messages.AnslpMsg.Serialize` | src/msg/anslp_response.cpp:105-139 | the bytes that are written, when writing fails, and their number unless an object is missing |
| `Messages.AnslpMsg.WriteObject` | src/msg/anslp_response.cpp:147-161 | one object is written at the position; a missing one is passed over, with an undefined result |
| `Messages.AnslpMsg.WriteUniques` | src/msg/anslp_response.cpp:120-127 | those unique objects of a type that are there are written in the order of the type |
| `Messages.AnslpMsg.WriteIpaps` | src/msg/anslp_create.cpp:140-149 | the loop over the sequence numbers writes the IPAP messages in order |
| `Messages.AnslpMsg.Check` | src/msg/anslp_response.cpp:158-174 | the check of each message type |
| `Messages.AnslpMsg.GetSerializedSize` | src/msg/anslp_msg.cpp:376-394 | the loop adds the sizes of all objects |
| `Messages.AnslpMsg.SetObject` | src/msg/anslp_msg.cpp:504-519 | the content gains the object |
| `Messages.AnslpMsg.GetObject` | src/msg/anslp_msg.cpp:489-492 | lookup agrees with the content |
| `Messages.AnslpMsg.GetMspecObjects` | src/msg/anslp_create.cpp:358-376 | the loop collects the IPAP messages |
| `Messages.AnslpMsg.Copy` | src/msg/anslp_msg.cpp:93-99 | a copy is an equal message |
| `Messages.AnslpMsg.Equals` | src/msg/anslp_msg.cpp:397-408 | equality of types and contents |
| `Messages.Deserialize` | src/msg/anslp_ie.cpp:227-261 | the parser object does what the parser function says, for every input and either mode |
| `Messages.ReadObjects` | src/msg/anslp_msg.cpp:227-273 | the object loop |
| `Messages.DeserializeObject` | src/msg/anslp_ie.cpp:277-310 | one object, and how far the buffer moves |
| `Messages.SerializeObject` | src/msg/anslp_object.cpp:250-285 | one object is written, unless it is invalid or there is no room |
| `Messages.SerializePayload` | src/msg/anslp_ipap_message.cpp:320-364 | the exported message and its zero padding |
| `Messages.PaddingIsZero` | src/msg/anslp_ipap_message.cpp:303-310 | the padding loop |
| `GistkaMapper.CreatePayload` | src/gistka_mapper.cpp:62-82 | a message is written into a buffer of its announced size, which is room enough; the assertion fails if and only if the message or one of its objects is not valid |
| `GistkaMapper.ReadPayload` | src/gistka_mapper.cpp:244-281 | received bytes become a new message if and only if the strict parser accepts them |
| `GistkaMapper.Transfer` | src/gistka_mapper.cpp:62-82 | a message object that is written into a buffer and read from there arrives as a new, equal object if and only if its bodies fit |
| `NetMsgs.NetMsg.Write` | src/msg/anslp_object.cpp:239-246 | bytes are written at the position and nowhere else |
| `Wire.MessageSurvivesTheWire` | src/gistka_mapper.cpp:244-281 | a message of the session machines that passes its check and holds only what is written arrives as it was sent, also when it lacks an object of its type |
| `Wire.CompleteMeansRequired` | src/msg/anslp_response.cpp:120-127 | a message is complete on the wire if and only if it has the objects of its type |
| `WireFormat.MessageBytes` | src/msg/anslp_object.cpp:236-300 | the bytes of every message: registered codes, lengths in words, values in network order, padding, and the order of the objects |
| `WireFormat.MspecObjectsAgree` | src/msg/anslp_create.cpp:358-376 | get_mspec_objects reads the same of a message on the wire as of the message that the sessions see, and fails in the same cases |
| `Sending.InitiatorSends` | src/ni_session.cpp:1151-1184 | every message that any event makes an initiator send, retransmissions included, is one that it built, and complete |
| `Sending.ForwarderSends` | src/nf_session.cpp:1504-1536 | what a forwarder built is complete, what it passes on is as complete as it was when received, its errors are not complete |
| `Sending.ResponderSends` | src/nr_session.cpp:955-987 | success responses are complete if and only if the request had a sequence number, errors are not complete, the rest is |
| `Sending.NodeSends` | src/dispatcher.cpp:97-206 | every message that a node sends comes from the session that handles the event, and is complete as its origin says |
| `Sending.NodeSendsComplete` | src/gistka_mapper.cpp:62-82 | on the wire it lacks an object of its type if and only if it is an error response, a success response to a request without a number, or was passed on incomplete |
| `Sending.NodeSendsReadably` | src/gistka_mapper.cpp:244-281 | whatever a node makes itself and sends is read back as it was, error responses included |
| `Wire.ErrorResponseIsIncomplete` | src/msg/anslp_response.cpp:105-139 | an error response passes its check but lacks the lifetime that its serialiser writes |
| `SessionIds.RoundTrip` | src/session_id.cpp:56-104 | the string constructor applied to the text form gives the same four words, for all 2^128 ids, and each printed word fits its buffer |
| `SessionIds.TextIsDottedDecimal` | src/session_id.cpp:126-142 | the text form is the four words in decimal with dots between them |
| `SessionIds.AllDigitsInOrder` | src/session_id.cpp:126-142 | with the usual ten digits, the highest first |
| `SessionIds.FromString` | src/session_id.cpp:56-104 | the constructor, with its loop over the parts and its errors |
| `SessionIds.ReadParts` | src/session_id.cpp:64-93 | the loop that reads the parts |
| `SessionIds.PrintedWordIsWhole` | src/session_id.cpp:126-144 | eleven bytes hold every printed word |
| `SessionIds.ParsePartOfDecimal` | src/session_id.cpp:66-72 | base-0 parsing reads a printed word back, zero included |

## Left out

- Messages.AnslpMsg.WriteObject: does not model what undefined behaviour may do besides returning any number, when a function ends without a result for a missing object (src/msg/anslp_response.cpp:158-160).
- DispatcherServices.KeepChecked: models the stated intent of the check filter, because the source erases through a reverse iterator (src/nr_session.cpp:489-500, src/nf_session.cpp:681-692).
- NiTheorems.ResponseTimeoutRange: the session machines compute with exact rationals, so their timeout can be one second shorter than the double (`Doubles.ResponseTimeoutOfDoubles`); interval and timeout are unbounded.
- IeStores.SetAllRefines: does not model the wrap of key sums at 2^32, which needs four billion objects in one message.
- SessionIds.ReadParts: does not model the overrun of the local array by a text with more than five parts.
- A rule is a value inside a session, so sharing of rule objects between a session and the installer is not visible; `AuctionRules` has the object with its maps.
- Authorisation always succeeds in the source and has no branch here; proxy mode and the SII handle are not used by the transitions.
- report_async_event is not implemented in the source and leaves no trace here; the answer to a routing state check is not part of the record of calls.
- Several dispatcher threads, locks and queues: one event is processed at a time, which is the default configuration.
- Contents of the message routing information beyond method and direction, and the GIST layer below.
- The IPAP payload format, its XML form and the splitter: a payload is bytes.
- The installers behind the dispatcher: an installer accepts or throws, once for each event.
- Removal of entries from the store, and the getters and setters of single objects, which would only add easy members.
- The decoding of other codings than protocol version 1, logging, printing, configuration and start-up.
