# GRANIT: protocol and codec models

A Dafny model of six parts of the GRANIT code base: the ownership of airspace sectors over OLDI messages, the
registry of SNMP indexes, exact rescaling of time stamps, the transport of large data over TCP, the election of a
master by heartbeats, and a handful of codecs.  `dafny verify dfyconfig.toml` checks all of it.

| file | what it models |
|---|---|
| `basics.dfy`, `collections.dfy`, `qt_text.dfy` | what several components share; sequences without duplicates; Qt text operations |
| `oldi_table.dfy` | the table `oldi_clients` as a map from sector to (client, status), what a claim makes of it, and what replaying a broadcast makes of a copy |
| `oldi_server.dfy` | the program steps on that table: INSERT, grouping, stripping, deleting, closing, announcing |
| `oldi_text.dfy` | the printed header, the STS data part, the acknowledgement and the error |
| `oldi_ack.dfy` | the map of messages that wait for an answer |
| `oldi_proc.dfy` | the process object that puts these together, on the server and on a workstation |
| `index_spec.dfy`, `index_map.dfy`, `index_parts.dfy`, `index_registry.dfy` | the two-level list of indexes as values, as a map from (OID, integer) to owner, its rows of strings and identifiers, and on the heap |
| `rescale.dfy` | `av_rescale_rnd`, `av_rescale_q_rnd` and `av_compare_ts` |
| `large_data.dfy`, `large_transport.dfy`, `large_socket.dfy` | packets, the transport on values, and its objects |
| `pulsar.dfy` | one node of the election, and a group of nodes whose heartbeats may be lost, repeated and late |
| `redis.dfy`, `icmp.dfy`, `multi_arg.dfy`, `xml_tree.dfy`, `xml_storage.dfy` | the Redis client, the Internet checksum, placeholder substitution, the settings file |

Where a loop of the program computes a value, a method has that loop and is proved against a specification function;
where an object changes its fields, a class does.  What the program promises is then proved about the specification.

Results that a reader may not expect:

- A workstation that owns no sector after a claim is not told the new table: not when it was stripped (it is told only
  its own closing), and not when it never owned one.  It falls behind unless the table did not change
  (`OldiServer.ReadsConverge`).  When it owns a sector again, the broadcast brings its copy up to date, except for stray
  rows: sectors that nobody owns any more, of clients that own nothing any more (`OldiServer.RunConverges`).
- A conflicting claim with a priority of 2 or more is neither committed nor refused: it is acknowledged, and the
  unchanged table is broadcast (`OldiServer.CheckClaim`, `OldiTable.JudgeExactly`).
- Message numbers come round after 1000: with more than 1000 owners nobody is told the whole table, and with 1000 the
  acknowledgement to an owner is lost (`OldiServer.ListsAnswer`).  A workstation still catches up if it reads the claimant's own list
  (`OldiTable.ClaimantSuffices`).
- `register_index` keeps the difference of two longs in an int, so integers far apart are misplaced
  (`IndexMap.FarValueMisplaced`, `IndexMap.RegisterThisExactly`).
- `unregister_index` compares bytes where `register_index` compares numbers: 256 cannot be unregistered while 1 is
  known, and unregistering an object identifier can release a shorter one that begins it (`IndexParts.PrefixReleased`).
  `IndexMap.UnregisterFinds` and `IndexParts.PartsFound` say exactly when a value is found.
- The division of `av_rescale_rnd` starts with a stale value in the quotient register; it is shifted out
  (`Rescale.DivideWide`).
- Empty data is never delivered by the large-data transport; `writeData` reports less than it wrote unless the data is
  empty.  Without losses any number of data arrives; with losses, data beyond the first 2^32 - 1 can be mixed with
  others, because identifiers come again (`LargeTransport.SafeExactlyUpTo`).
- Two masters with equal start times both step down; with distinct start times, and without activation orders, there is
  always a master (`Pulsar.SafeExactlyWhenDistinct`).  An activation order is safe only for the node that started first
  of those that announce themselves: a late announcement of an earlier one silences the new master, and the order,
  arriving again, silences that one too (`Pulsar.SafeToActivateExactly`).
- A null element of a Redis list makes the element behind it misread unless that is an empty text
  (`Redis.ListRoundTrip`), and a part that ends in a backslash does not survive quoting.
- The class comment of `PulsarPrivate.h:30-33` says that one of two masters steps down; for equal start times the code
  makes both do so, and the model follows the code.

## Model

| member | source | states |
|---|---|---|
| OldiTable.AfterAt | common/oldi/OLDIProc.cpp:313-585 | after a claim that is committed, exactly who owns each sector and with which status: requested sectors go to the claimant (the first as primary), the sectors of stripped clients go to it as secondary, every other row stays |
| OldiTable.OwnershipKept | common/oldi/OLDIProc.cpp:313-585 | whatever the verdict (granted, forced, refused, ignored), every client that owns sectors has exactly one row with status 1 afterwards; one owner per sector is the form of the table |
| OldiTable.PrimaryUnique | common/oldi/OLDIProc.cpp:369-373 | a client has one primary sector after a committed claim |
| OldiTable.SectorsConserved | common/oldi/OLDIProc.cpp:435-541 | the sectors after a committed claim are exactly the requested ones and those the claimant did not own before: no sector is lost in a takeover |
| OldiTable.TakeoverFair | common/oldi/OLDIProc.cpp:452-479 | another client either is stripped, which happens exactly when its primary sector is asked for, and owns nothing, or keeps exactly its rows that were not asked for, unchanged, its primary among them |
| OldiTable.OwnersExactly | common/oldi/OLDIProc.cpp:313-585 | who owns a sector after a committed claim, as a test on the table and the claim before it |
| OldiTable.GrantStripsNobody | common/oldi/OLDIProc.cpp:361-382 | a claim that meets no taken sector strips nobody |
| OldiTable.JudgeExactly | common/oldi/OLDIProc.cpp:361-389 | a claim that repeats a sector or asks for one of another client is refused at priority 0, carried out at 1 and ignored above; every other claim is granted whatever its priority |
| OldiTable.ClaimDecided | common/oldi/OLDIProc.cpp:361-585 | a conflicting claim changes nothing unless its priority is 1; a claim of priority 1 and one without a conflict gets every sector that it asks for |
| OldiTable.ReplayedBroadcast | common/oldi/OLDIProc.cpp:238-253 | replaying the lists of all owners, in any order, gives the table that was broadcast plus an exactly described set of stale rows; it gives that table if and only if no row is stale |
| OldiTable.BroadcastConverges | common/oldi/OLDIProc.cpp:232-254 | a copy equal to the table before a claim is equal to the table after it once the whole broadcast is replayed, statuses included, in any order |
| OldiTable.ReleaseConverges | common/oldi/OLDIProc.cpp:213-231 | a claim without sectors is granted, and replaying it does to a copy what the server did to its table |
| OldiTable.StrippedDiverges | common/oldi/OLDIProc.cpp:498-509 | a client that loses everything is told only that; its copy never becomes the new table |
| OldiTable.UnchangedExactly | common/oldi/OLDIProc.cpp:313-585 | a claim leaves the table as it is if and only if it is refused, ignored, or names exactly the rows that its client has |
| OldiTable.ClaimantSuffices | common/oldi/OLDIProc.cpp:323-377 | from any part of a broadcast: a copy equal to the old table equals the new one if and only if the claimant's own list was read, or nothing changed |
| OldiServer.InsertRows | common/oldi/OLDIProc.cpp:361-382 | the INSERT loop succeeds exactly when no requested sector is taken or repeated, and then adds exactly the rows of the claim; a failure leaves the other clients' rows alone |
| OldiServer.SelectByStatus | common/oldi/OLDIProc.cpp:194-207 | every sector once, in the order of the status |
| OldiServer.GroupByClient | common/oldi/OLDIProc.cpp:407-434 | the rows of each client, each once, and no row has a lesser status than the first |
| OldiServer.StripClient | common/oldi/OLDIProc.cpp:440-482 | nothing of a client's list is lost or doubled: an entry is kept exactly when it is not asked for and no primary of the client is |
| OldiServer.CollectLosses | common/oldi/OLDIProc.cpp:435-483 | what all clients lose is exactly the set of rows that a takeover of these sectors takes away, each once and with its owner |
| OldiServer.DeleteLost | common/oldi/OLDIProc.cpp:484-511 | deletes exactly the lost rows, sends one closing message, with the next number, for each lost primary, and notes exactly the clients that lose something as those to update |
| OldiServer.EraseLosses | common/oldi/OLDIProc.cpp:486-497 | deleting by client, sector and status removes exactly the lost sectors |
| OldiServer.CloseMessagesClose | common/oldi/OLDIProc.cpp:498-509 | the closing messages reach exactly the clients that are closed, under consecutive numbers |
| OldiServer.CloseCountBound | common/oldi/OLDIProc.cpp:498-509 | no client is closed twice, so the numbers used are as many as the clients stripped |
| OldiServer.LosersLose | common/oldi/OLDIProc.cpp:484-489 | the clients noted are exactly those that lose a sector to the claim |
| OldiServer.RowsToInsert | common/oldi/OLDIProc.cpp:513-530 | the rows to insert: lost and requested sectors as secondary, the first requested one as primary |
| OldiServer.InsertForced | common/oldi/OLDIProc.cpp:531-541 | no forced INSERT meets a taken sector, so the error branch behind the loop is never taken |
| OldiServer.TakeoverRows | common/oldi/OLDIProc.cpp:513-541 | the inserted sectors are disjoint from those that are left, also for duplicate requests, and together they are the takeover |
| OldiServer.ForceTakeover | common/oldi/OLDIProc.cpp:391-545 | the takeover as it is done, from the second DELETE to the last INSERT, gives exactly the takeover table, closes exactly the stripped clients with one number each, and notes those whose sectors changed |
| OldiServer.DeleteSectors | common/oldi/OLDIProc.cpp:339-359 | the workstation deletes exactly the sectors of the announcement |
| OldiServer.CheckClaim | common/oldi/OLDIProc.cpp:313-585 | on the server, from the table and the priority alone: a claim with a conflict leaves the table as it is and is answered with exactly one error at priority 0, has all it asks for at 1, and leaves the table as it is and is answered with nothing above; any other claim has all it asks for and no message of its own; the table is in each case the specified one; on a workstation it becomes the replay; the outgoing messages, their numbers and the clients to update are the specified ones |
| OldiServer.ResolveConflict | common/oldi/OLDIProc.cpp:384-581 | a claim whose INSERT failed: at priority 0 the table stays and one error goes out, at 1 the claimant owns all it asks for, above that nothing happens; with the message numbers used and the clients to update |
| OldiServer.ListsByClient | common/oldi/OLDIProc.cpp:194-211 | one list for every owner, with all its sectors, its primary first |
| OldiServer.ListDescribes | common/oldi/OLDIProc.cpp:195-211 | the list of a client names exactly its sectors and starts with its primary, so its replay restores the rows |
| OldiServer.NthDistinct | common/oldi/OLDIProc.cpp:35-39 | message numbers repeat only after 1000 steps |
| OldiServer.AnnounceAllReaches | common/oldi/OLDIProc.cpp:234-254 | the last 1000 lists reach every owner: no map entry overwrites another within 1000 numbers |
| OldiServer.AnnouncedLate | common/oldi/OLDIProc.cpp:234-254 | only the last 1000 lists reach anybody: the numbers come round and overwrite the others |
| OldiServer.ToldLate | common/oldi/OLDIProc.cpp:234-254 | the lists that an owner is told are exactly the last 1000 |
| OldiServer.AnnounceAllAt | common/oldi/OLDIProc.cpp:238-253 | every entry of the outgoing map is an announcement of one owner's list to one owner, urgent exactly for an owner whose own sectors changed, or was there before |
| OldiServer.AnnounceToAt | common/oldi/OLDIProc.cpp:215-230 | one announcement goes to every owner and to the claimant under one number |
| OldiServer.SendLists | common/oldi/OLDIProc.cpp:237-253 | the nested loops over the owners fill the outgoing map as specified and advance the number once per owner |
| OldiServer.LamAdded | common/oldi/OLDIProc.cpp:186-188 | the acknowledgement overwrites no closing message |
| OldiServer.LamStays | common/oldi/OLDIProc.cpp:186-253 | the acknowledgement survives the announcements if and only if there are at most 999 of them, or it does not go from the server to an owner |
| OldiServer.ListsAnswer | common/oldi/OLDIProc.cpp:184-256 | exactly when everybody is told the whole table (at most 1000 owners) and exactly when the claim is acknowledged; stripped clients and clients that own nothing are told what concerns them in any case |
| OldiServer.Announcements | common/oldi/OLDIProc.cpp:213-254 | a release is announced once to all; any other claim is answered with the lists of all owners to all owners |
| OldiServer.Reply | common/oldi/OLDIProc.cpp:184-256 | the acknowledgement, then the announcements, with the number of the last message |
| OldiServer.Respond | common/oldi/OLDIProc.cpp:184-256 | the answer to a claim that is not refused: who is told the whole new table, with priority 1 for its own sectors if they changed, that a stripped client is told only that it is closed and nobody else anything, and exactly when the numbers suffice for that and for the acknowledgement |
| OldiServer.OwnListUrgent | common/oldi/OLDIProc.cpp:240-249 | a client is told its own list with priority 1 exactly when a forced claim has changed its sectors or it is the forced claimant, and every other list with priority 0 |
| OldiServer.HandleClaim | common/oldi/OLDIProc.cpp:179-256 | a claim on the server: the new table, the number of the last message, and an error alone if it is refused, otherwise the answer just described |
| OldiServer.FollowClaim | common/oldi/OLDIProc.cpp:179-188 | an announcement on a workstation: the table becomes the replay, and exactly the acknowledgement goes out under the next number |
| OldiServer.InformedReads | common/oldi/OLDIProc.cpp:258-260 | what a client reads in the outgoing map is a whole broadcast, its own closing, the release, or nothing |
| OldiServer.ReadsConverge | common/oldi/OLDIProc.cpp:213-254 | exactly which workstations have the new table after reading their messages in any order, if they had the old one, as a test on the old table and the claim: those that will own a sector or asked for the release, and everybody if the table does not change; one that owns nothing afterwards falls behind, stripped or not |
| OldiServer.CopyDetermined | common/oldi/OLDIProc.cpp:179-261 | over any run of claims and from any copy, a workstation's copy is determined by the claims alone, not by the order or the repetition of the messages |
| OldiServer.CopyStepCatchesUp | common/oldi/OLDIProc.cpp:213-254 | one claim: the condition under which a copy equal to the table stays equal to it |
| OldiServer.StraysExactly | common/oldi/OLDIProc.cpp:238-253 | the rows that stay in a copy although the server has none like them: exactly those whose sector and client every later table lacks and whose client did not release |
| OldiServer.RunConverges | common/oldi/OLDIProc.cpp:179-261 | over any run, from any copy and however long out of touch: from the first whole broadcast that a workstation reads, as long as it stays in touch, its copy is the server's table and exactly the stray rows; the two are equal if and only if there are none |
| OldiServer.JoinerConverges | common/oldi/OLDIProc.cpp:179-261 | a workstation that starts with an empty copy has the server's table from its first claim on, as long as it owns a sector |
| OldiServer.StayerConverges | common/oldi/OLDIProc.cpp:179-261 | a workstation that starts with the server's table and stays in touch keeps the server's table |
| OldiText.HeaderFields | common/oldi/OLDIMessage.cpp:56-73 | what parsing a printed header yields for every number: only three places are read as the number, the rest falls into the data |
| OldiText.HeaderRoundTrip | common/oldi/OLDIMessage.cpp:56-73 | parsing undoes printing if and only if the number is below 1000 |
| OldiText.LamAnswersOnly | common/oldi/OLDIMessage.cpp:23-39 | the acknowledgement of a message, printed and parsed, answers a pending message if and only if it has the key of that message |
| OldiText.LamParses | common/oldi/OLDIMessage.cpp:75-91 | an acknowledgement survives printing and parsing |
| OldiText.ErrAnswersOnly | common/oldi/OLDIProc.cpp:568-576 | the error about a message, printed and parsed, answers a message if and only if it has the key of that one, which learns the code 001 |
| OldiText.QuotingAnswers | common/oldi/OLDIMessage.cpp:23-39 | a message that quotes another, printed and parsed, answers it exactly if it is an acknowledgement or an error that goes the way back, and never a message with another key; the error codes are what follows the quoted header |
| OldiText.StsWire | common/oldi/OLDIMesSTS.cpp:14-17 | an STS message is printed as the example in the source |
| OldiText.LamWire | common/oldi/OLDIMessage.cpp:85-88 | an acknowledgement is printed as the example in the source |
| OldiText.ErrWire | common/oldi/OLDIMesERR.cpp:12-21 | an error is printed as the example in the source, with the code that is used |
| OldiText.SplitJoin | common/oldi/OLDIMesSTS.cpp:37-43 | splitting at dashes undoes joining with dashes |
| OldiText.StsParts | common/oldi/OLDIMesSTS.cpp:30-45 | reading the data of an STS message gives back number, names, priority and text |
| OldiText.StsRoundTrip | common/oldi/OLDIMesSTS.cpp:3-45 | an STS message survives the constructor, the wire, the header parser and GetDataSTS, and its text splits into the same words |
| OldiText.ReadSts | common/oldi/OLDIMesSTS.cpp:30-45 | the loop that appends the parts computes what is specified |
| OldiAck.DropOverdue | common/oldi/OLDIProc.cpp:158-168 | the loop over the waiting messages removes exactly the overdue ones and signals each once |
| OldiAck.EverySendAccounted | common/oldi/OLDIProc.cpp:68-168 | over any run, each message sent is still waiting, has left by answer or by timeout, or was overwritten by a later one with its key: nothing is lost and nothing leaves twice |
| OldiAck.OverwrittenOnlyByReuse | common/oldi/OLDIProc.cpp:68-69 | messages are overwritten if and only if a key is used again while it waits |
| OldiAck.EachLeavesOnce | common/oldi/OLDIProc.cpp:126-168 | each message leaves exactly once, or still waits, if and only if no key is used again before its message has left |
| OldiProcessor.AnnouncementRead | common/oldi/OLDIMesSTS.cpp:3-45 | an announcement is read by its receiver as the claim that was meant |
| OldiProcessor.InboxRead | common/oldi/OLDIProc.cpp:258-260 | a receiver reads exactly the claims addressed to it, after printing and parsing |
| OldiProcessor.DeliveryConverges | common/oldi/OLDIProc.cpp:179-261 | replica convergence through printing and parsing: exactly which workstations with the old table have the new one after their messages, in any order |
| OldiProcessor.WordsKept | common/oldi/OLDIProc.cpp:313-585 | names in the table stay printable words |
| OldiProcessor.AnswerIsByKey | common/oldi/OLDIMessage.cpp:23-39 | whether a reply answers a message depends only on the message's key |
| OldiProcessor.BatchDelivers | common/oldi/OLDIProc.cpp:184-261 | the batch that answers a claim delivers it to everybody concerned, and holds the acknowledgement if the numbers suffice for it |
| OldiProcessor.ServedBy | common/oldi/OLDIProc.cpp:178-264 | what is sent about a claim: one error, which answers the request with the code 001, if the claim meets a conflict at priority 0, and otherwise what tells everybody concerned, and the acknowledgement |
| OldiProcessor.FindAnswered | common/oldi/OLDIProc.cpp:135-143 | the search finds a message that the reply answers if there is one |
| OldiProcessor.OldiProc.SendMessage | common/oldi/OLDIProc.cpp:41-77 | the message is sent, and waits under its key exactly if it is no acknowledgement and no error |
| OldiProcessor.OldiProc.SendAll | common/oldi/OLDIProc.cpp:258-260 | every entry of the outgoing map is sent once, and what waits then is what these messages make of it |
| OldiProcessor.OldiProc.Answer | common/oldi/OLDIProc.cpp:179-261 | the server makes the outgoing map and sends all of it |
| OldiProcessor.OldiProc.Serve | common/oldi/OLDIProc.cpp:179-261 | the server: the new table, the number of the last message, the batch that is sent and what it makes of what waits; a claim that meets a conflict at priority 0 leaves the table and is answered by one error under the next number, which answers the request and no other message; otherwise the batch tells everybody concerned as long as there are at most 1000 owners |
| OldiProcessor.OldiProc.Acknowledge | common/oldi/OLDIProc.cpp:178-188 | on a workstation the replay is made, and one acknowledgement of the message is sent under the next number |
| OldiProcessor.OldiProc.Follow | common/oldi/OLDIProc.cpp:179-261 | the workstation: its table becomes the replay, and the acknowledgement is sent under the next number |
| OldiProcessor.OldiProc.ReceiveSts | common/oldi/OLDIProc.cpp:179-261 | an STS message from its text: ignored without a client, served or followed otherwise; the table, the number, what is sent and what waits |
| OldiProcessor.OldiProc.Receive | common/oldi/OLDIProc.cpp:126-157 | one incoming message, of whatever type: the table, the number, what is sent in return and what waits |
| OldiProcessor.OldiProc.TakeAnswer | common/oldi/OLDIProc.cpp:133-144 | exactly the message with the quoted key leaves the waiting map; without one nothing changes |
| OldiProcessor.OldiProc.Expire | common/oldi/OLDIProc.cpp:158-168 | exactly the overdue messages leave |
| OldiProcessor.OldiProc.ReceiveAll | common/oldi/OLDIProc.cpp:126-157 | all incoming messages in order: the table, the number, what is sent in return for each, and what waits |
| OldiProcessor.OldiProc.OnAckTimer | common/oldi/OLDIProc.cpp:126-168 | the table and the number after all incoming messages, what is sent in return for each of them, and the history of the waiting messages: the answers that came, the messages sent, then the overdue ones |
| OldiProcessor.PostsAwait | common/oldi/OLDIProc.cpp:68-69 | the messages sent that want an answer are exactly the sends in the history |
| OldiProcessor.EachSentLeavesOnce | common/oldi/OLDIProc.cpp:68-168 | at any moment, each message that was sent under a key and wants an answer has left once, by answer or by timeout, or still waits, if and only if no key was used again before its message left |
| OldiProcessor.StationReplays | common/oldi/OLDIProc.cpp:323-377 | a workstation's table after any messages is the replay of the claims in them |
| OldiProcessor.StationNumbers | common/oldi/OLDIProc.cpp:178-188 | a workstation takes one message number for each claim that it reads |
| OldiProcessor.StationAnswers | common/oldi/OLDIProc.cpp:178-188 | it answers each text with a claim by one acknowledgement, of the message in that text only, and other texts by nothing |
| OldiProcessor.ServerRuns | common/oldi/OLDIProc.cpp:126-261 | what the server does with incoming texts is a run of requests, about each of which every workstation reads what it is sent |
| OldiProcessor.Relay | common/oldi/OLDIProc.cpp:126-261 | two processors: texts come in at the server and all it sends comes in at a workstation with any copy; the workstation's table is then what the requests make of that copy |
| OldiProcessor.RelayOne | common/oldi/OLDIProc.cpp:126-261 | two processors with equal tables and one claim: their tables are equal afterwards exactly for the workstations that catch up |
| IndexSpec.OidCompareTransitive | 3rdparty/net-snmp-5.4.3/agent/agent_index.c:184-187 | the order of names is transitive |
| IndexParts.OidOrder | 3rdparty/net-snmp-5.4.3/snmplib/snmp_api.c:6300-6340 | names are ordered as in a dictionary: by the first part that differs, or else the shorter one first |
| IndexSpec.CompareInts | 3rdparty/net-snmp-5.4.3/agent/agent_index.c:223-227 | the difference cut to 32 bits has the sign of the difference when that fits an int |
| IndexSpec.RawEqual | 3rdparty/net-snmp-5.4.3/agent/agent_index.c:524-526 | on longs the comparison of bytes is zero for equal values only |
| IndexSpec.FairExactly | 3rdparty/net-snmp-5.4.3/agent/agent_index.c:220-248 | the search for an integer stops where it is or belongs if and only if the comparisons with the values below it and with the first one that is not have the right sign |
| IndexSpec.NearValues | 3rdparty/net-snmp-5.4.3/agent/agent_index.c:223-227 | they have when all differences fit an int |
| IndexSpec.RegisterKeeps | 3rdparty/net-snmp-5.4.3/agent/agent_index.c:157-451 | registering in any mode keeps the list well formed (names strictly increasing, one name and one type per row, integers strictly increasing) if the search for an integer is fair and a value that is made up fits its type |
| IndexSpec.UnregisterKeeps | 3rdparty/net-snmp-5.4.3/agent/agent_index.c:489-572 | unregistering keeps it well formed |
| IndexSpec.DropKeeps | 3rdparty/net-snmp-5.4.3/agent/agent_index.c:473-485 | dropping a session keeps it well formed |
| IndexSpec.ThisKeepsSorted | 3rdparty/net-snmp-5.4.3/agent/agent_index.c:227-240 | a row of object identifiers or strings stays strictly sorted by the comparison of the program when a value is asked for |
| IndexParts.RegisterParts | 3rdparty/net-snmp-5.4.3/agent/agent_index.c:222-263 | a string or identifier asked for in a sorted row: an entry that is the same is claimed, or refused when it is held, and otherwise the value is entered, held by the session; strings are the same when they agree as far as the shorter one goes |
| IndexParts.RegisterMadeUp | 3rdparty/net-snmp-5.4.3/agent/agent_index.c:199-214 | asking for any value of a row that is not of integers: the first released entry is claimed; without one, or when a new value is asked for, the made-up value goes to the end of a row of strings or identifiers, and nothing happens in a row of another kind |
| IndexParts.OtherKinds | 3rdparty/net-snmp-5.4.3/agent/agent_index.c:222-244 | a value of another kind is registered only when it is asked for under a new name |
| IndexSpec.StringFound | 3rdparty/net-snmp-5.4.3/agent/agent_index.c:517-571 | for strings both functions compare alike: in a sorted row every value is found when it is unregistered |
| IndexParts.RawExactly | 3rdparty/net-snmp-5.4.3/agent/agent_index.c:520-525 | for strings and identifiers the comparison of bytes is zero exactly when the parts agree as far as the shorter one goes, and positive exactly when the first part that differs is above, a part of an identifier from its least significant byte on |
| IndexParts.UnregisterParts | 3rdparty/net-snmp-5.4.3/agent/agent_index.c:501-571 | in a row of strings or identifiers, sorted or not, unregistering concerns the first entry that the search does not go past, if that agrees with the value as far as the shorter one goes, and nothing else; otherwise the value is not allocated |
| IndexParts.ConcernedAgrees | 3rdparty/net-snmp-5.4.3/agent/agent_index.c:520-540 | whenever there is an entry concerned, it is held and agrees with the value as far as the shorter one goes |
| IndexParts.PartsFound | 3rdparty/net-snmp-5.4.3/agent/agent_index.c:517-571 | a string or identifier that the session holds is released, and nothing else changed, if and only if the first part that differs is above that of every entry before it |
| IndexParts.SmallIdentifiersFound | 3rdparty/net-snmp-5.4.3/agent/agent_index.c:517-571 | in a sorted row of identifiers with parts below 256 a held one is found if and only if no known one begins it |
| IndexParts.PrefixReleased | 3rdparty/net-snmp-5.4.3/agent/agent_index.c:520-540 | of two identifiers that are held, one beginning the other, unregistering the longer one releases the shorter one |
| IndexMap.RegisterThis | 3rdparty/net-snmp-5.4.3/agent/agent_index.c:219-268 | after a fair search a requested integer is registered if and only if nobody holds it; then the session holds it and no other (OID, integer) changes; otherwise nothing changes |
| IndexMap.RegisterThisExactly | 3rdparty/net-snmp-5.4.3/agent/agent_index.c:219-268 | for every long: the list stays sorted, only the value asked for is registered and only a held one refused, if and only if the search is fair or refuses a held value for the wrong reason |
| IndexMap.FarValueMisplaced | 3rdparty/net-snmp-5.4.3/agent/agent_index.c:223-227 | -2 is put behind the greatest int, because their difference does not fit an int |
| IndexMap.RegisterAny | 3rdparty/net-snmp-5.4.3/agent/agent_index.c:206-218 | any integer: the smallest released one, or one above all that are known; only that slot changes |
| IndexMap.RegisterNew | 3rdparty/net-snmp-5.4.3/agent/agent_index.c:329-346 | a new integer is above every remembered one; only that slot changes |
| IndexMap.WrongKind | 3rdparty/net-snmp-5.4.3/agent/agent_index.c:194-195 | nothing is registered under a name with another type |
| IndexMap.UnregisterFinds | 3rdparty/net-snmp-5.4.3/agent/agent_index.c:517-571 | exactly when an integer is unregistered: the session holds it and the search by bytes reaches it; exactly when the session is wrong; what changes then, and that nothing changes otherwise |
| IndexMap.SearchByBytes | 3rdparty/net-snmp-5.4.3/agent/agent_index.c:522-529 | the search by bytes stops at the value if and only if it is known and no smaller known value comes later in the order of bytes |
| IndexMap.SmallValuesReachable | 3rdparty/net-snmp-5.4.3/agent/agent_index.c:524-526 | below 256 every held value is found |
| IndexMap.HeldButNotFound | 3rdparty/net-snmp-5.4.3/agent/agent_index.c:524-526 | 256 is held and cannot be unregistered while 1 is known |
| IndexMap.DropReleases | 3rdparty/net-snmp-5.4.3/agent/agent_index.c:473-485 | dropping a session releases exactly what it holds |
| IndexMap.CountsKnown | 3rdparty/net-snmp-5.4.3/agent/agent_index.c:678-696 | the count is the number of integers held, or known, under the name |
| IndexRegistry.Registry.FindOid | 3rdparty/net-snmp-5.4.3/agent/agent_index.c:178-188 | the search for a name finds the row or the place for it, and the row before |
| IndexRegistry.Registry.FindFreeNode | 3rdparty/net-snmp-5.4.3/agent/agent_index.c:206-218 | the walk for a released value, or to the end of the row |
| IndexRegistry.Registry.FindNode | 3rdparty/net-snmp-5.4.3/agent/agent_index.c:220-248 | the walk along a row until a comparison is not positive |
| IndexRegistry.Registry.Mark | 3rdparty/net-snmp-5.4.3/agent/agent_index.c:260-264 | claiming or releasing a node changes that entry and no link |
| IndexRegistry.Registry.RedirectRow | 3rdparty/net-snmp-5.4.3/agent/agent_index.c:442-446 | every node of a row gets the new next row |
| IndexRegistry.Registry.RedirectBefore | 3rdparty/net-snmp-5.4.3/agent/agent_index.c:442-448 | exactly the nodes of the row before, or the head, are redirected; no other link changes |
| IndexRegistry.Registry.LinkRow | 3rdparty/net-snmp-5.4.3/agent/agent_index.c:437-448 | a new row is linked in between two rows; all links of the list are again right |
| IndexRegistry.Registry.AddFront | 3rdparty/net-snmp-5.4.3/agent/agent_index.c:434-448 | a new node in front of a row: the links of all other nodes afterwards |
| IndexRegistry.Registry.LinkFirst | 3rdparty/net-snmp-5.4.3/agent/agent_index.c:434-448 | a new first node of a row; the row before leads to it |
| IndexRegistry.Registry.LinkAfter | 3rdparty/net-snmp-5.4.3/agent/agent_index.c:429-432 | a new node behind another one of its row |
| IndexRegistry.Registry.UnlinkAfter | 3rdparty/net-snmp-5.4.3/agent/agent_index.c:552-553 | taking out a later node of a row |
| IndexRegistry.Registry.UnlinkFirst | 3rdparty/net-snmp-5.4.3/agent/agent_index.c:554-568 | taking out the first node of a row that has more |
| IndexRegistry.Registry.UnlinkRow | 3rdparty/net-snmp-5.4.3/agent/agent_index.c:554-568 | taking out the only node of a row |
| IndexRegistry.Registry.NewValue | 3rdparty/net-snmp-5.4.3/agent/agent_index.c:329-346 | the value of a new entry is one above the last of the row, or 1 |
| IndexRegistry.Registry.Register | 3rdparty/net-snmp-5.4.3/agent/agent_index.c:157-451 | registering on the heap gives the value and the list that the specification says, and a valid structure: no cycle, no lost node, next_oid of every node the head of the next row |
| IndexRegistry.Registry.Unregister | 3rdparty/net-snmp-5.4.3/agent/agent_index.c:489-572 | unregistering on the heap gives the error and the list that the specification says, and a valid structure |
| IndexRegistry.Registry.DropSession | 3rdparty/net-snmp-5.4.3/agent/agent_index.c:473-485 | dropping a session on the heap is what the specification says |
| IndexRegistry.Registry.Count | 3rdparty/net-snmp-5.4.3/agent/agent_index.c:678-696 | counting on the heap is what the specification says |
| Rescale.Rounding.Flip | 3rdparty/ffmpeg/src/mathematics.cpp:81 | the mode for the magnitude of a negative number is the code xor its second bit |
| Rescale.RoundedUnique | 3rdparty/ffmpeg/src/mathematics.cpp:75-84 | each of the five modes determines the result |
| Rescale.OffsetRounds | 3rdparty/ffmpeg/src/mathematics.cpp:83-84 | adding the offset before the truncating division rounds as the mode says |
| Rescale.NegationRounds | 3rdparty/ffmpeg/src/mathematics.cpp:81 | rounding the magnitude with the flipped mode and negating rounds the negative number |
| Rescale.RoundTo | 3rdparty/ffmpeg/src/mathematics.cpp:75-116 | the rounded quotient, for any sign |
| Rescale.DivideFirst | 3rdparty/ffmpeg/src/mathematics.cpp:90 | dividing first loses nothing |
| Rescale.SplitProduct | 3rdparty/ffmpeg/src/mathematics.cpp:93-97 | the half-word products put together are the product, and each fits its register |
| Rescale.CarryExact | 3rdparty/ffmpeg/src/mathematics.cpp:102-104 | a wrapped sum is below an addend exactly when a carry was lost |
| Rescale.AddWithCarries | 3rdparty/ffmpeg/src/mathematics.cpp:98-104 | shifting the middle product in and adding the offset keeps both carries |
| Rescale.WideProduct | 3rdparty/ffmpeg/src/mathematics.cpp:93-104 | the two words hold exactly a*b+r |
| Rescale.DivisionRound | 3rdparty/ffmpeg/src/mathematics.cpp:108-113 | one round of the division: the remainder stays below the divisor, and the next bit enters the quotient register |
| Rescale.DivisionStep | 3rdparty/ffmpeg/src/mathematics.cpp:108-113 | what each round of the division keeps: the remainder is below the divisor, remainder and quotient make up what has been shifted in, and the register is the quotient on top of the stale value modulo 2^64 |
| Rescale.DivideWide | 3rdparty/ffmpeg/src/mathematics.cpp:106-115 | 64 rounds give the true quotient, whatever the register held at the start |
| Rescale.RescaleSmall | 3rdparty/ffmpeg/src/mathematics.cpp:86-90 | the two short paths give the quotient, with every intermediate value in 64 bits |
| Rescale.RescaleRnd | 3rdparty/ffmpeg/src/mathematics.cpp:75-116 | the exact a*b/c rounded as asked, on all paths and for negative a |
| Rescale.RescaleQRnd | 3rdparty/ffmpeg/src/mathematics.cpp:131-137 | the same through two rationals |
| Rescale.FastGuard | 3rdparty/ffmpeg/src/mathematics.cpp:147 | the or of the operands is small exactly when every operand is |
| Rescale.FloorBelow | 3rdparty/ffmpeg/src/mathematics.cpp:149-150 | a floor is below an integer exactly when the rational is |
| Rescale.CompareTs | 3rdparty/ffmpeg/src/mathematics.cpp:144-152 | -1, 0 or 1 exactly when the one instant is before, at or after the other, computed exactly, on both paths |
| LargeData.PacketRoundTrip | common/largesocket/LargeData.cpp:8-62 | decoding the bytes of a packet gives back the packet |
| LargeData.PacketLayout | common/largesocket/LargeData.cpp:8-19 | the fields of a packet stand in its bytes in their order, in network order and two's complement, the data behind them |
| LargeData.PacketInFront | common/largesocket/LargeData.cpp:64-86 | at the front of a buffer a packet is recognised and its size known, whatever follows |
| LargeData.SizeKnown | common/largesocket/LargeData.cpp:64-86 | the size is known as soon as the header has arrived |
| LargeData.IndexOf | common/largesocket/LargeReceiver.cpp:74 | the first place of the signature, or -1 |
| LargeTransport.JoinParts | common/largesocket/LargeSender.cpp:43-47 | the parts of data, joined, are the data; none is empty or too large |
| LargeTransport.FirstIdentifiers | common/largesocket/LargeSender.cpp:37-39 | identifiers count up from 0 |
| LargeTransport.IdentifiersComeRound | common/largesocket/LargeSender.cpp:37-39 | the bad identifier is never given out, and after it the others repeat |
| LargeTransport.DataFate | common/largesocket/LargeReceiver.cpp:94-131 | whatever packets of one data are dropped, and whatever was left of another, it comes out exactly if it is not empty and none was dropped |
| LargeTransport.HeldInTurn | common/largesocket/LargeReceiver.cpp:94-120 | whatever packets come, in any order and number, the receiver holds the parts of the last ones, numbered from 0 under one identifier |
| LargeTransport.CameInTurn | common/largesocket/LargeReceiver.cpp:94-131 | what it hands out came in the last packets, numbered from 0 under one identifier, as many as the last of them says |
| LargeTransport.LossSafety | common/largesocket/LargeReceiver.cpp:94-131 | whatever packets are dropped, the receiver hands out exactly the data that lost none, in order: never a mixture |
| LargeTransport.MixtureAfterWrap | common/largesocket/LargeReceiver.cpp:94-131 | with one data more than there are identifiers, halves of two different data are joined |
| LargeTransport.SafeExactlyUpTo | common/largesocket/LargeReceiver.cpp:94-131 | all runs of n data are safe, whatever is dropped, if and only if there are identifiers for n data |
| LargeTransport.ProceedTakes | common/largesocket/LargeReceiver.cpp:72-92 | proceed takes one whole packet from the front of the buffer |
| LargeTransport.ProceedSkips | common/largesocket/LargeReceiver.cpp:72-92 | bytes before the signature do not matter: the step is the one without them |
| LargeTransport.ProceedWaits | common/largesocket/LargeReceiver.cpp:83-84 | proceed waits for the rest of a packet |
| LargeTransport.TickStep | common/largesocket/LargeReceiver.cpp:63-92 | a tick takes the next packet if all of it has arrived, and changes nothing otherwise |
| LargeTransport.RunFramed | common/largesocket/LargeReceiver.cpp:52-92 | for any chunks and ticks, the receiver has taken some number of whole packets, holds the other bytes, and its timer runs exactly when a header is there |
| LargeTransport.NeverStalls | common/largesocket/LargeReceiver.cpp:52-92 | with a whole packet in the buffer the timer runs and the next tick takes it |
| LargeTransport.Drains | common/largesocket/LargeReceiver.cpp:52-92 | once all bytes have arrived, as many ticks as packets drain the buffer |
| LargeTransport.StreamOfPackets | common/largesocket/LargeReceiver.cpp:52-131 | chunking independence for any packets: always a prefix of what they make one by one, and all of it, with nothing left over, once the timer has stopped |
| LargeTransport.TimerStops | common/largesocket/LargeReceiver.cpp:63-92 | the timer stops after at most as many ticks as there are packets |
| LargeTransport.Delivery | common/largesocket/LargeReceiver.cpp:52-131 | loss safety through the stream: always a prefix of the intact data, and all of them once the timer has stopped |
| LargeTransport.LosslessDelivery | common/largesocket/LargeSender.cpp:32-54 | without losses all data but the empty ones come out, in order, however many there are |
| LargeTransport.StreamDelivery | common/largesocket/LargeSocket.cpp:182-205 | as bytes and without losses, for any number of data: what has come is a prefix of what was written, and in the end all of it |
| LargeTransport.ReportsLess | common/largesocket/LargeSender.cpp:49-53 | for data that are not empty, writeData reports less than it wrote |
| LargeSocket.LargeSender.AdvanceIdentifier | common/largesocket/LargeSender.cpp:37-39 | the 32-bit step that skips the bad identifier |
| LargeSocket.LargeSender.Split | common/largesocket/LargeSender.cpp:41-47 | the loop that splits makes the parts |
| LargeSocket.LargeSender.SendNextPart | common/largesocket/LargeSender.cpp:56-81 | the packet of one part goes to the socket if it accepts it; after the last part the parts are forgotten |
| LargeSocket.LargeSender.SendParts | common/largesocket/LargeSender.cpp:49-53 | the packets that the socket accepts are written in order |
| LargeSocket.LargeSender.WriteData | common/largesocket/LargeSender.cpp:32-54 | without a socket -1 and no change; otherwise the next identifier and the bytes of all accepted packets |
| LargeSocket.SendAll | common/largesocket/LargeSender.cpp:32-81 | after any list of data the wire holds the bytes of the packets that were not dropped |
| LargeSocket.LargeReceiver.OnReadyRead | common/largesocket/LargeReceiver.cpp:52-61 | bytes are appended and the timer started once a header is there |
| LargeSocket.LargeReceiver.TimerEvent | common/largesocket/LargeReceiver.cpp:63-70 | a tick |
| LargeSocket.LargeReceiver.ProceedBuffer | common/largesocket/LargeReceiver.cpp:72-92 | at most one packet, after removing bytes before the signature |
| LargeSocket.LargeReceiver.ProceedPacket | common/largesocket/LargeReceiver.cpp:94-120 | one packet: what is kept of the data in progress, and what is handed out |
| LargeSocket.LargeReceiver.PostData | common/largesocket/LargeReceiver.cpp:122-131 | the joined parts are handed out and the receiver is idle |
| LargeSocket.ReceiveAll | common/largesocket/LargeReceiver.cpp:52-131 | after any list of chunks and ticks the receiver is in the state that the specification says |
| LargeSocket.StreamReader.TimerEvent | common/largesocket/LargeSocket.cpp:201-205 | what the receiver hands out goes to the end of the buffer |
| LargeSocket.StreamReader.ReadData | common/largesocket/LargeSocket.cpp:182-188 | reading takes at most maxlen bytes from the front and leaves the others |
| LargeSocket.BytesReadWereWritten | common/largesocket/LargeSocket.cpp:182-205 | the bytes read are a prefix of the bytes written at the other end, and all of them once everything has arrived, the timer has stopped and the buffer has been read |
| Pulsar.PulsarNode.WaitIsOver | common/pulsar/PulsarPrivate.cpp:57-63 | the node is master |
| Pulsar.PulsarNode.SendStatus | common/pulsar/PulsarPrivate.cpp:65-97 | the status says 3 for a passive node, 1 for another master and 0 for another slave, and carries the start time |
| Pulsar.PulsarNode.SendActivate | common/pulsar/PulsarPrivate.cpp:99-124 | the order names the sender, for receivers in its subnet |
| Pulsar.PulsarNode.Take | common/pulsar/PulsarPrivate.cpp:170-279 | a master steps down exactly when it hears another one that did not start later or an order that names another node, a slave becomes master exactly when an order from its subnet names it, with the signal and the information kept then; the rest of the node as specified |
| Pulsar.PulsarNode.ReadyRead | common/pulsar/PulsarPrivate.cpp:161-281 | all pending datagrams, one after the other |
| Pulsar.Perform | common/pulsar/PulsarPrivate.cpp:57-281 | one step done by the object concerned is that step of the group |
| Pulsar.OwnerIsTold | common/pulsar/PulsarPrivate.cpp:57-281 | over every run of a node the signals started and stopped take turns, every signal of a new master names the one before, and the node knows the start time in the last announcement that it heard as a slave |
| Pulsar.SlaveFollows | common/pulsar/PulsarPrivate.cpp:237-252 | a slave that hears an announcement keeps what that says, stays a waiting slave, and tells of a new master exactly when the start time is another one than in the last announcement |
| Pulsar.Play | common/pulsar/PulsarPrivate.cpp:57-281 | a run of objects is a run of the group, and afterwards an object waits exactly when it is not master |
| Pulsar.SlavesWait | common/pulsar/PulsarPrivate.cpp:57-281 | over every run, orders and late heartbeats included, a node waits exactly when it is not master |
| Pulsar.TakesOver | common/pulsar/PulsarPrivate.cpp:57-63 | after any run a time-out makes any node master that is not master already, and changes no other node |
| Pulsar.TimeoutKeeps | common/pulsar/PulsarPrivate.cpp:57-63 | a time-out keeps the election invariant |
| Pulsar.SendKeeps | common/pulsar/PulsarPrivate.cpp:65-97 | sending a status keeps it |
| Pulsar.DeliverKeeps | common/pulsar/PulsarPrivate.cpp:183-253 | receiving any heartbeat ever sent, however late or often, keeps it |
| Pulsar.RunKeeps | common/pulsar/PulsarPrivate.cpp:57-281 | so it holds over every run: a node that has been master and is not beaten by another is master |
| Pulsar.AlwaysAMaster | common/pulsar/PulsarPrivate.cpp:183-209 | with distinct start times the earliest started of the nodes that have been master is master |
| Pulsar.PlayElection | common/pulsar/PulsarPrivate.cpp:57-281 | after any run of objects without orders and with distinct start times, the earliest started object that has been master is master |
| Pulsar.ClashLosesMaster | common/pulsar/PulsarPrivate.cpp:188 | two masters with the same start time make each other step down |
| Pulsar.SafeExactlyWhenDistinct | common/pulsar/PulsarPrivate.cpp:188-209 | no run loses its master if and only if the start times of the nodes that announce themselves are distinct |
| Pulsar.QuietStep | common/pulsar/PulsarPrivate.cpp:188-209 | without time-outs nobody becomes master, and each step-down lowers the number of masters by one |
| Pulsar.HearingStepsDown | common/pulsar/PulsarPrivate.cpp:202-209 | a master that hears an earlier one steps down |
| Pulsar.OneMasterRemains | common/pulsar/PulsarPrivate.cpp:183-253 | once every other master has heard the earliest one, and nobody timed out meanwhile, that one is the only master |
| Pulsar.SoleMasterStays | common/pulsar/PulsarPrivate.cpp:183-253 | the only master stays in every run without time-outs if and only if no announcement under way silences it |
| Pulsar.HandoverKeepsMaster | common/pulsar/PulsarPrivate.cpp:211-253 | after a handover there is always a master in every run without time-outs if and only if no announcement of a node that did not start later was under way |
| Pulsar.LateOrderLosesMaster | common/pulsar/PulsarPrivate.cpp:211-233 | a run in which an old order, arriving again, leaves no master |
| Pulsar.SafeToActivateExactly | common/pulsar/PulsarPrivate.cpp:183-253 | over all runs in which only one node orders its activation, time-outs and late orders included, there is a master from the moment it has been master if and only if it started before every other node that announces itself |
| Redis.Reader.SplitLine | 3rdparty/redis/reader.cpp:82-123 | the loop over the line computes the parts as specified |
| Redis.Reader.Encode | 3rdparty/redis/reader.cpp:125-137 | the loop over the parts computes the request |
| Redis.Reader.SendData | 3rdparty/redis/reader.cpp:72-141 | the request for the parts of the line is written, if connected |
| Redis.Reader.ReadLine | 3rdparty/redis/reader.cpp:143-208 | a reply is decoded; an empty one is ignored |
| Redis.Reader.ReadElements | 3rdparty/redis/reader.cpp:193-204 | the loop over the elements of a list |
| Redis.BulkRead | 3rdparty/redis/reader.cpp:195-203 | wherever a bulk string stands, its element is read back and the position is behind it, whatever characters it holds |
| Redis.LineReplies | 3rdparty/redis/reader.cpp:153-170 | a status, an error and a number are read as the text up to the line end |
| Redis.CommandText | 3rdparty/redis/reader.cpp:125-137 | the request for a command of two parts, written out |
| Redis.CommandRoundTrip | 3rdparty/redis/reader.cpp:125-205 | decoding the encoded command gives back the parts, with line ends in them or not |
| Redis.ListRoundTrip | 3rdparty/redis/reader.cpp:183-205 | a list of texts and nulls is decoded as it was meant if and only if every null is last or directly followed by an empty text |
| Redis.BulkRoundTrip | 3rdparty/redis/reader.cpp:172-181 | decoding a bulk string gives it back |
| Redis.NullElementMisread | 3rdparty/redis/reader.cpp:198-203 | a list with a null before a text is misread, and one with the null at the end is not |
| Redis.ScanQuoted | 3rdparty/redis/reader.cpp:89-102 | a quoted part is scanned back, except that a backslash at its end takes the closing quote |
| Redis.QuoteRoundTrip | 3rdparty/redis/reader.cpp:82-123 | splitting the quoted and joined parts gives back the parts if and only if none is empty or ends in a backslash |
| Redis.LineSplits | 3rdparty/redis/reader.cpp:82-123 | a line of plain words and quoted texts, in any mixture and with any white space before, between and behind them, splits into what they say: pieces without white space between them make one part, and a part that says nothing does not count |
| Redis.WordsSplit | 3rdparty/redis/reader.cpp:103-123 | words without quotes come back as they are |
| Icmp.AddWords | common/ping/IcmpSocket.cpp:47-56 | the loop adds the words, and an odd last byte |
| Icmp.IpChecksum | common/ping/IcmpSocket.cpp:45-64 | the checksum as specified |
| Icmp.SumByPlace | common/ping/IcmpSocket.cpp:47-56 | the words are read least significant byte first, and an odd last byte as if a zero followed |
| Icmp.FoldsSuffice | common/ping/IcmpSocket.cpp:58-60 | two folds keep the sum modulo 65535 if and only if what the second leaves above 16 bits is a multiple of 65535 |
| Icmp.NoCarry | common/ping/IcmpSocket.cpp:58-60 | below 2^32 nothing is left above 16 bits |
| Icmp.ChecksumCongruent | common/ping/IcmpSocket.cpp:45-64 | the checksum is minus the sum of the words modulo 65535 |
| Icmp.StoredChecksum | common/ping/IcmpSocket.cpp:139-145 | for every packet, of even or odd length, whose word sum is below 2^32, storing the checksum in the zeroed word makes the recomputed checksum zero |
| Icmp.RequestIsGood | common/ping/IcmpSocket.cpp:134-145 | the request has the checksum zero |
| Icmp.RequestLayout | common/ping/IcmpSocket.cpp:134-145 | identifier and number stand in the request in network order, cut to 16 bits, the message behind them as given |
| Icmp.FillRequest | common/ping/IcmpSocket.cpp:136-143 | the buffer holds the header and the message |
| Icmp.IcmpSocket.Send | common/ping/IcmpSocket.cpp:122-163 | what is sent and when the number advances |
| MultiArg.GetEscape | common/utilities/utils.cpp:477-500 | the number of a placeholder and the place behind it |
| MultiArg.EscapeShape | common/utilities/utils.cpp:477-500 | a placeholder holds no other percent sign, and its number does not depend on the limit |
| MultiArg.CollectNumbers | common/utilities/utils.cpp:511-521 | the first pass finds exactly the numbers of the placeholders, in ascending order |
| MultiArg.AssignArguments | common/utilities/utils.cpp:523-537 | the k-th smallest number gets the k-th argument |
| MultiArg.PassesAgree | common/utilities/utils.cpp:542-544 | with its own limit the second pass finds a placeholder exactly if its number has an argument, which is the one of its rank |
| MultiArg.FillLiteral | common/utilities/utils.cpp:549 | a placeholder without an argument is copied |
| MultiArg.MultiArg | common/utilities/utils.cpp:502-552 | the result is one simultaneous substitution: inserted text is never scanned again |
| MultiArg.SubstitutedByOrder | common/utilities/utils.cpp:502-552 | of a text of placeholders and other characters, each placeholder with the k-th smallest number is replaced by the k-th argument, and one without an argument, one with a number above 999 and all else stays as it is |
| MultiArg.EveryText | common/utilities/utils.cpp:477-500 | every text is made of such pieces |
| XmlTree.FlatAppend | common/utilities/xml_storage.cpp:49-50 | nodes that follow each other are read one after the other |
| XmlTree.TextBetween | common/utilities/xml_storage.cpp:26-54 | text between elements of a file that the program has not written is skipped behind the first child, but as the first child hides all entries of a map or list and the text of a property |
| XmlTree.TextsTogether | common/utilities/xml_storage.cpp:34 | the text of an element is all the text inside |
| XmlTree.LeavesFlat | common/utilities/xml_storage.cpp:57-97 | reading the nodes of a setting gives its value under its name |
| XmlTree.AddFlat | common/utilities/xml_storage.cpp:137-149 | adding a setting with a new key adds its value under that key and changes nothing else that is read |
| XmlTree.BuiltFlat | common/utilities/xml_storage.cpp:131-149 | whatever the order of the settings, reading the tree gives exactly those that are not empty |
| XmlTree.ReadAsMeant | common/utilities/xml_storage.cpp:67-96 | a setting is read as it was meant if and only if all entries of its map have names |
| XmlTree.ExpectedIsWhole | common/utilities/xml_storage.cpp:67-96 | nothing is dropped if and only if no map or list is empty and no entry is without a name |
| XmlStorage.KeyOfKey | common/utilities/xml_storage.cpp:138-149 | splitting a key and putting its path together again gives the key |
| XmlStorage.LegalExactly | common/utilities/xml_storage.cpp:26-51 | the keys that the results are about: no directory is without a name or named like one of the tags that mean something else |
| XmlStorage.AppendSetting | common/utilities/xml_storage.cpp:57-97 | the nodes that are appended for a value |
| XmlStorage.SettingShapes | common/utilities/xml_storage.cpp:57-97 | what stands in the file for a text, a map and a list |
| XmlStorage.AddSetting | common/utilities/xml_storage.cpp:137-149 | the walk along the directories of a key |
| XmlStorage.DirectoryShared | common/utilities/xml_storage.cpp:137-149 | two settings in the same directory share its element, the second behind the first |
| XmlStorage.StorageToDisk | common/utilities/xml_storage.cpp:131-150 | the tree of all settings |
| XmlStorage.XmlTraversal | common/utilities/xml_storage.cpp:22-55 | the traversal of a tree |
| XmlStorage.SettingsRoundTrip | common/utilities/xml_storage.cpp:22-161 | reading the tree that was built gives back the settings, keys that are prefixes of others included, if and only if no map or list is empty and no map entry is without a name |

## Left out

- Databases: INSERT fails only on a sector that is taken (the column `sector` is assumed unique, its schema is not in the repository), DELETE and SELECT succeed, a transaction that is not committed is rolled back.
- The iteration order of `QMap` and the order of rows with equal status in a SELECT: the results hold for every order.
- Sleeping, logging, sockets, Qt signals as such and timers: they are parameters, output fields or steps.
- The other OLDI message classes, `m_mapReceiveMes`, `recieveMessage` and error codes other than 001.
- The column `msgtype`: the type of a message is taken from its header.
- Names in OLDI headers are non-empty words without digits, slash, percent sign or dash; other names do not survive the header by design of its format.
- OldiProcessor.Relay: the names can be carried by a header, there are at most 1000 owners after each claim, as with more nobody is told the whole table, and texts arrive in the order in which they were sent.
- OldiServer.Respond: when 1000 or more clients are stripped by one claim and the claimant's own workstation is one of them, its acknowledgement can have the key of its closing message; which of the two is sent then depends on the order of the deletions and is left open.
- OldiText.ReadSts: numbers in messages are digits only; white space and signs that `toUInt` also takes are not modelled.
- An announcement with a repeated sector: a workstation rolls it back but acknowledges it; the model says so (`OldiTable.Replay` leaves the copy as it is), and no broadcast holds one.
- The values that `register_index` makes up for strings and object identifiers: a parameter called `rollover`; nothing is claimed about their freshness.
- IndexMap.RegisterAny: when a value has to be made up, the last one of the row is below the greatest long, as the source's increment overflows there. Longs are eight bytes, least significant first.
- IndexMap.RegisterNew: the same.
- `release_index`, memory allocation failures, and forwarding to an AgentX master.
- Rescale.RescaleRnd: `a` equal to INT64_MIN and results that do not fit 64 bits are excluded, as the source has undefined or wrapped values there.
- `av_gcd` and `av_compare_mod`, which rescaling does not use, and `av_rescale` and `av_rescale_q`, which call the modelled functions with a fixed mode.
- LargeSocket.LargeReceiver.ProceedBuffer: a size field outside 0 to 30000, which makes the source read or write outside its buffers, leaves the model's state as it is.
- The signals `error`, `started`, `finished` and `packageReceived` of the large-data transport, disconnects and the resending after a reconnect; bytes of another protocol before a packet are modelled but no claim is made about them beyond the step itself.
- LargeTransport.LossSafety: only whole packets are lost; damaged bytes are not modelled.
- Pulsar: `deactivate`, network masks and interfaces are left out, no two nodes share an address, and the pause of five seconds after an order is not modelled.
- Redis: characters stand for bytes, as they do for ASCII; `toInt` takes digits with an optional minus sign; replies arrive whole.
- ICMP: sums of 2^32 and more, which depend on the width of a long; receiving, socket options and the size check of the caller (`Send` is given at most 1024 bytes, as its callers do); words are stored least significant byte first.
- MultiArg.GetEscape: the number of a placeholder is unbounded, so digits that overflow an int are not modelled; warnings are left out.
- XmlStorage.AddSetting: the DOM is a value, not a structure of shared nodes that is changed in place; sharing of nodes is not captured.
- XmlStorage.StorageToDisk: writing the tree to a file and parsing it, where Qt drops text of white space only, is left out; values are strings, maps of strings and lists of strings.
- XmlStorage.SettingsRoundTrip: directory names are non-empty and none of `Config`, `property`, `property_map` and `property_list`, which the traversal or the search for a directory would take for something else.
- Redis command wrappers, supervisor streams, SNMP output, widgets, configuration search, `qttcpdatagramprotocol` and generated code.
