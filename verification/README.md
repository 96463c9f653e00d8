# ServerIList: a verified model of the request-processing core

ServerIList keeps shared shopping lists: users register and log in over sockets, form groups of at most four members
with statuses, and edit a list of items for each group. This project models what one packet does to the accounts, the
group tables, the session maps and the outgoing messages, and proves properties of single operations and of whole runs.

The program joins each worker thread before it takes the next packet (ServerIList/Manager.cpp:50-51), so one packet is
one step of a sequential machine.

## How the project is laid out

- `Text`, `Decimal`: strings cut at and joined with a separator; `to_string`, `stoi`, SQL integer literals.
- `Config`, `Parser`, `Messages`: the code table and its binary search, the protocol parser, the message printers.
- `Tables`, `Store`: rows, SQL statements as sequence operations, and each group or list operation as a function of the
  tables. `PublicGroup`, `PublicLists`: the classes, statement by statement, proved equal to these functions.
- `StoreInvariant`, `Book`, `Refinement`, `Runs`, `ListLaws`: the invariant of the tables, their meaning as a map of
  groups, the refinement between the two, and laws over runs.
- `Restore`, `RestoreDecoding`: the restore encoder with its cursors and trims, and a decoder that undoes it.
- `Sessions`, `Server`: the two session maps; client list, message queue and queue of disconnected sockets.
- `Dispatch`, `Manager`: the server as a state machine on raw packet texts, and the class whose `MessageHandler` is
  proved to make exactly the steps of that machine. `ServerRuns`: theorems about the machine.
- `InviteReplay`, `BroadcastSync`, `SyncRuns`: what the messages sent to a user's socket are worth to a client that
  reads and replays them, for an invitation, for one request, and over runs. `RestoreSync`: the same from a restore on.
- `AccessRules`: who may change a group, and who reads its mail.
- `Lines`, `Requests`, `GroupRequests`, `AnswerRequests`, `AccountRequests`: for each code of the protocol, by number
  and text, what the request does to the groups, accounts and sessions, what is answered, and who is told.
- `Scenes`, `Overflow`, `Readers`: runs of a fresh server after which a client is wrong, or a rule is broken.

A method that changes state ensures that the new state is a function of the old one; what the program promises is then
proved about that function. `Result` stands for the exceptions of ServerIList/Exception.h.

## Where the code does less than its comments say

- removeGroup and addUser build a `PermissionIsDeniedException` but do not throw it (ServerIList/PublicGroup.cpp:66,116).
  The model keeps this: every member may remove a group or add a user, also an admin. `AcceptedIsAuthorized` and
  `ChangesComeFromMembers` say exactly how far the levels are kept, `ReaderClosesGroup` gives a run.
- The dispatcher looks up the name of a socket before every request, and the lookup makes the socket known
  (ServerIList/Users.cpp:72, ServerIList/Manager.cpp:98). The duplicate check of Login is therefore never reached with
  an unknown socket, and a user can be online on two sockets (`TakeOverHappens`). `ServeKeepsLink` says exactly which
  packets break the correspondence of the session maps.
- For the same reason a socket that only registered an account may create a group, whose creator then has the empty
  name: the schema's reference from members to accounts does not hold. `NamelessExactly` says exactly when it breaks,
  `NamelessHappens` gives the packets.
- A positive quantity does not stay positive: sums wrap at 32 bits, and the first add of an item is not checked.
  `PutStaysPositive` has the exact condition, `PositiveAddsCanWrap` an example.
- A request can be accepted and announced without being done as announced: a quantity added to a listed item counts as
  the number `stoi` finds at its start, whatever follows, a sum beyond 32 bits wraps, and renaming an item to another
  item's name makes the update fail silently. `BroadcastSync.Faithful` is the condition that excludes these requests,
  `MembersStayInSync` and `RunsKeepSync` show that it is exact, and `UnfaithfulHappens` gives a run.
- A message to a user who is offline is stored, and promised for the next login (ServerIList/Manager.cpp:122), but the
  replay is commented out (ServerIList/Manager.cpp:124-129): a member who is offline is never told. `AbsentMemberMisses`
  gives a run; the theorems about clients count what is sent to the user's socket, and say exactly what being offline
  costs.
- Group codes, and the quantity of a new item, stand in the SQL statements without quotes
  (ServerIList/PublicGroup.cpp:126-131,175-178,219, ServerIList/PublicLists.cpp:37), and the parser does not ask for
  numbers. A packet is `Plain` when these texts are integer literals of 64 bits; then the statements are those of the
  model. Otherwise the properties of the tables need not hold. What follows a semicolon is not compiled
  (ServerIList/Database.cpp:48), so `@15|1;|bob1|rw||` from a member with full control sets the status of all members
  of group 1, the creator included; `@13|1;|bob1||` deletes all of them and counts one less; `@16|1;|bob1|rw||` counts
  one more without a row; and `@20|2 or 1|milk|5|r||` stores an item for group 1 even when there is no such group.
  Theorems about the tables after packets therefore ask of each packet that it is plain, which a caller can check on
  its text and, for an added item, on the list. `PlainIsNotChecked` shows that the parser accepts packets that are
  not. That a packet is plain is sufficient and not necessary: some other texts, such as `+5` for a new item, do no
  harm, and which ones do depends on SQL.

## Model

| member | source | states |
|---|---|---|
| Text.SplitJoin | ServerIList/Parser.cpp:46-53 | splitting at a separator undoes joining, for all fields free of it |
| Text.JoinSplit | ServerIList/Parser.cpp:46-53 | joining undoes splitting, for every string |
| Text.DoubledJoin | ServerIList/Parser.cpp:58-66 | a joined text doubles its separator exactly where an inner field is empty |
| Decimal.ReadsBack | ServerIList/PublicLists.cpp:76 | reading back a printed integer gives the integer in SQL, and in `stoi` exactly within 32 bits |
| Decimal.StoiReads | ServerIList/PublicLists.cpp:76 | `stoi` of any text, by its leading spaces, sign, digits and rest: the rest does not matter, without a digit or beyond 32 bits there is no value |
| Config.FindMsgCode | ServerIList/Config.h:105-121 | on any strictly sorted table the search stays in bounds, ends, and finds exactly the members |
| Config.CodesAreSorted | ServerIList/Config.h:94-96 | the program's table is strictly sorted, so the search is exact for it |
| Config.CodesInRanges | ServerIList/Config.h:94-96 | the codes of the table, as ranges |
| Parser.SameCharInARow | ServerIList/Parser.cpp:58-66 | the scan finds a doubled character if and only if there is one |
| Parser.SplitLines | ServerIList/Parser.cpp:46-53 | the getline loop delivers the pieces without the empty one after a final separator |
| Parser.Parse | ServerIList/Parser.cpp:4-38 | the constructor decides as the declarative language says, with both erases in bounds |
| Parser.ParseAccepts | ServerIList/Parser.cpp:9-37 | accepted are exactly the framed messages without quote and double dash whose code text reads as a known code; code and arguments are the framed ones |
| Parser.RefusedExactly | ServerIList/Parser.cpp:4-38 | which of the three exceptions a text is refused with, exactly |
| Parser.AcceptedIsFramed | ServerIList/Parser.cpp:9-37 | an accepted message is "@", code text and non-empty bar-free arguments, each with a bar, and a final bar; its arguments can be sent again |
| Parser.ArgumentsAreBarsLessTwo | ServerIList/Parser.cpp:17-37 | the number of arguments is the number of bars less two |
| Messages.MakeVectorMessage | ServerIList/Manager.cpp:275-285 | the appending loop prints the joined packet |
| Messages.MakeTableMessage | ServerIList/Manager.cpp:257-273 | the nested loops print one argument for each row, its cells joined with commas |
| Messages.MakeTextMessage | ServerIList/Manager.cpp:287-292 | the string form prints the packet with one argument |
| Messages.PrintThenParse | ServerIList/Manager.cpp:275-285 | parsing a printed message returns its code and arguments, for every known code and all sendable arguments |
| Messages.OnlySendableComesBack | ServerIList/Manager.cpp:275-285 | the converse: what comes back unchanged has a known code and sendable arguments |
| Messages.ParseThenPrint | ServerIList/Parser.cpp:23-37 | printing an accepted message again gives the same text if and only if its code text is canonical |
| StoreInvariant.ApplyKeeps | ServerIList/PublicGroup.cpp:12-222 | every operation keeps primary keys, references between the tables, counters within capacity, and the creator as an admin |
| StoreInvariant.CounterAgrees | ServerIList/PublicGroup.cpp:125-132 | a counter rewritten from the value read before agrees with the changed membership rows |
| StoreInvariant.NewCode | ServerIList/PublicGroup.cpp:26-39 | the code selected after the insert is the new one, larger than all others, and its admin row does not conflict |
| StoreInvariant.RenameKeepsKey | ServerIList/PublicLists.cpp:140-146 | updating an item, also to another name, keeps the key (group, item name) unique |
| Store.HasMemberRow | ServerIList/PublicGroup.cpp:250-268 | a membership row that was found refers to a group row, so the unguarded first-row accesses are in bounds |
| PublicGroups.PublicGroup.CreateGroup | ServerIList/PublicGroup.cpp:12-44 | never throws; draws the next code, adds group and admin rows, changes nothing else |
| PublicGroups.PublicGroup.RemoveGroup | ServerIList/PublicGroup.cpp:46-79 | exact result and tables, the unthrown exception included; a failure changes nothing |
| PublicGroups.PublicGroup.AddUser | ServerIList/PublicGroup.cpp:81-135 | exact result and tables, the unthrown exception included |
| PublicGroups.PublicGroup.RemoveUser | ServerIList/PublicGroup.cpp:138-181 | exact result and tables |
| PublicGroups.PublicGroup.SetUserStatus | ServerIList/PublicGroup.cpp:184-222 | exact result and tables |
| ListsOfGroups.PublicLists.AddItem | ServerIList/PublicLists.cpp:12-41 | exact result and tables: insert, or add to the stored quantity |
| ListsOfGroups.PublicLists.IncItem | ServerIList/PublicLists.cpp:74-79 | the sum in 32-bit arithmetic of the two texts as `stoi` reads them, or its exception |
| ListsOfGroups.PublicLists.RemoveItem | ServerIList/PublicLists.cpp:43-71 | exact result and tables |
| ListsOfGroups.PublicLists.UpdateItem | ServerIList/PublicLists.cpp:85-148 | exact result and tables, with all six refusals and the silent name conflict |
| ListsOfGroups.PublicLists.IsNumber | ServerIList/PublicLists.cpp:178-186 | the scan accepts exactly the texts of digits, the empty one too |
| Book.MeaningIsUnique | ServerIList/Database.h:62-96 | a state of the tables means exactly one map of groups |
| Runs.Meaning | ServerIList/Database.h:62-96 | every state that satisfies the invariant has a meaning |
| Refinement.Simulate | ServerIList/PublicGroup.cpp:12-222 | every operation commutes with the meaning and has the result of the simple map operation; one that throws leaves all tables unchanged |
| Refinement.SimulateAdd | ServerIList/PublicGroup.cpp:81-135 | the equality test against four refines "full means at least four" |
| Refinement.SimulatePut | ServerIList/PublicLists.cpp:12-41 | addItem refines setting an item, or summing its quantity and keeping its remarks |
| Refinement.SimulateEdit | ServerIList/PublicLists.cpp:85-148 | updateItem refines replacing the keyed item, or nothing when the new name is taken |
| Runs.RunRefines | ServerIList/PublicGroup.cpp:12-222 | over every run the tables mean what the simple map has become |
| Runs.CountersOfRuns | ServerIList/PublicGroup.cpp:22-39 | on every run each counter is the number of membership rows and lies between 1 and 4 |
| Runs.AdminIsForever | ServerIList/PublicGroup.cpp:167-171 | over every run an admin stays a member with status "admin" exactly as long as the group exists |
| Runs.CreatorStays | ServerIList/PublicGroup.cpp:35-39 | on every run each group has its creator as an admin |
| Runs.RemovedForever | ServerIList/PublicGroup.cpp:69-76 | a removed group never comes back and nothing refers to it, in every later state |
| ListLaws.AddsAccumulate | ServerIList/PublicLists.cpp:31-39 | from absence, an unbroken run of adds by any members who may write accumulates the quantities and keeps the first remarks |
| ListLaws.StoredSum | ServerIList/PublicLists.cpp:74-79 | whoever makes the adds and in every order of them, the stored quantity is the sum in 32 bits; it is the true sum if and only if that fits |
| ListLaws.StoredSumOfPrinted | ServerIList/PublicLists.cpp:31-39 | the same when the quantities are sent as printed numbers |
| ListLaws.PutStaysPositive | ServerIList/PublicLists.cpp:31-39 | an accepted add, with whatever text, keeps all stored quantities positive if and only if the quantity to be stored is a positive number of 32 bits |
| ListLaws.RunStaysPositive | ServerIList/PublicLists.cpp:12-148 | on the tables, over every run of operations: all quantities are positive 32-bit numbers at every moment if and only if each accepted add fits |
| ListLaws.PositiveAddsCanWrap | ServerIList/PublicLists.cpp:76 | tables with positive quantities only and an accepted add of one after which that is no longer so |
| Restoring.Trimmed | ServerIList/Restore.cpp:24-43 | the two trims leave the joined record, without the fourth field's comma when the list is empty |
| Restoring.Restore.BuildRestoreMessage | ServerIList/Restore.cpp:12-48 | the nested cursor loops print one joined record for each membership row of the user, with all accesses in bounds |
| Restoring.RecordsAreInhabited | ServerIList/Restore.cpp:76-87 | every restored group has a group row and at least one member |
| RestoreDecoding.RestoreRoundTrip | ServerIList/Restore.cpp:12-48 | a decoder reads the records back, groups with empty lists included |
| RestoreDecoding.RestoreIsInjective | ServerIList/Restore.cpp:12-48 | different records give different messages |
| RestoreSync.RestoreGivesGroups | ServerIList/Restore.cpp:12-48 | in whatever order the queries return the rows, the records read as groups are the user's groups as the tables mean them |
| RestoreSync.RestoreDeterminesGroups | ServerIList/Restore.cpp:12-48 | in whatever order, a user's message of one state is also a message of another state if and only if the user's groups, with names, members and items, are the same in both |
| RestoreDecoding.RestoreParses | ServerIList/Restore.cpp:14-47 | the parser accepts every such message with code 400 and the records as arguments, in order |
| RestoreDecoding.SeparatorsCollide | ServerIList/Restore.cpp:39-40 | with a separator inside a field two different lists share a message |
| SessionMaps.Users.Login | ServerIList/Users.cpp:15-42 | exact result and maps, with the skipped duplicate check |
| SessionMaps.Users.Register | ServerIList/Users.cpp:45-58 | exact result and accounts |
| SessionMaps.Users.Logout | ServerIList/Users.cpp:60-63 | both entries disappear, the socket's and that of its name |
| SessionMaps.Users.GetUsername | ServerIList/Users.cpp:70-73 | an unknown socket becomes known with the empty name |
| SessionMaps.SignInKeepsLink | ServerIList/Users.cpp:80-84 | a login keeps the maps inverse if and only if neither the socket nor the name belongs to another session |
| SessionMaps.DuplicateCheckIsEnough | ServerIList/Users.cpp:28-38 | skipping the check when nobody is online is sound; on a new socket exactly the online names are refused |
| SessionMaps.DisciplinedRunsStayInverse | ServerIList/Users.cpp:15-90 | over every run of registrations, logins on new sockets and logouts on known ones the maps stay inverse, and everybody online is registered |
| SessionMaps.DrainRestricts | ServerIList/Manager.cpp:61-67 | after the drain exactly the sockets that were not queued are online, and exactly the names of the queued ones are gone |
| Servers.Server.Accept | ServerIList/Server.cpp:104-124 | a new handle is appended; accepts less drops stay one for clients and zero for others |
| Servers.Server.Disconnect | ServerIList/Server.cpp:203-214 | exactly the client leaves, and is queued once; a socket that is no client changes nothing |
| Servers.Server.Poll | ServerIList/Server.cpp:139-160 | one round of the receive loop: the polled client, both queues, the client list and the next index |
| Servers.Server.PollAll | ServerIList/Server.cpp:139-160 | as many rounds as clients, none of which drops one: every client is polled once, from any index, and the packets are queued in that order |
| Servers.Server.GetLastPacket | ServerIList/Server.cpp:177-192 | packets leave in the order of arrival |
| Servers.OthersOf | ServerIList/Server.cpp:209 | removing one of several distinct clients removes exactly that one |
| Servers.EachPolledOnce | ServerIList/Server.cpp:139-159 | from any index, n rounds over n unchanged clients poll each exactly once |
| Dispatch.DeliveryIsConserved | ServerIList/Manager.cpp:294-318 | a sequence of deliveries is one socket send for each message to an online user and one new row for each other, in order, and nothing else changes |
| Dispatch.RowsPerUser | ServerIList/Manager.cpp:294-312 | a user's stored rows grow by the messages to the user when offline and not at all when online |
| Dispatch.BroadcastReachesEachOnce | ServerIList/Manager.cpp:314-318 | a broadcast to a group is one delivery for each member, a row exactly for the offline members, nothing for others |
| Managers.Manager.TrySend | ServerIList/Manager.cpp:294-312 | exactly one delivery, to the socket or to the table |
| Managers.Manager.SendToAll | ServerIList/Manager.cpp:314-318 | the loop delivers to all rows in order |
| Managers.Manager.Drain | ServerIList/Manager.cpp:61-67 | the loop without an increment ends, empties the queue and logs out exactly the queued online sockets |
| Managers.Manager.InviteCase | ServerIList/Manager.cpp:157-188 | exact tables and messages of an invitation |
| Managers.Manager.MessageHandler | ServerIList/Manager.cpp:56-83 | one packet makes exactly the step of the state machine, the error reply included; the rows below say what that step is for each code |
| AccountRequests.RegisterRequest | ServerIList/Manager.cpp:106-113 | code 1: the lengths of name and password, the refusals in their order, the new account, the answer 101 |
| AccountRequests.LoginRequest | ServerIList/Manager.cpp:115-130 | code 2: the lengths, name and password decide; both session maps, the answer 100 |
| AccountRequests.LogoutRequest | ServerIList/Manager.cpp:132-139 | code 3: exactly the session ends |
| AnswerRequests.ListRequest | ServerIList/Manager.cpp:149-155 | code 10: one text to the requesting socket, with one row for each group of the requesting name and no others; nothing changes |
| AnswerRequests.CreateRequest | ServerIList/Manager.cpp:141-147 | code 11: one text with code 102 to the requesting socket, whose argument is the code of the only new group; its name, admin and date |
| GroupRequests.ExpelRequest | ServerIList/Manager.cpp:190-199 | code 13: each refusal and its reason; the user leaves the group and nothing else changes; who is told, exactly |
| GroupRequests.CloseRequest | ServerIList/Manager.cpp:211-218 | code 14: the group is gone, and everybody who was a member is told once, with 113 |
| GroupRequests.StatusRequest | ServerIList/Manager.cpp:201-209 | code 15: each refusal and its reason; the user gets the status; all members are told once, with 112 |
| GroupRequests.InviteRequest | ServerIList/Manager.cpp:157-188 | code 16: each refusal and its reason; the user is a member; the others are told once, the new member of the group, each member and each item |
| GroupRequests.PutNewRequest | ServerIList/Manager.cpp:222-228 | code 20, not listed: each refusal and its reason; the item is stored; all members are told once, with 200 |
| GroupRequests.PutListedRequest | ServerIList/Manager.cpp:222-228 | code 20, listed: each refusal and its reason; the quantity is the sum in 32 bits; all members are told once, with 200 |
| GroupRequests.TakeRequest | ServerIList/Manager.cpp:230-236 | code 21: each refusal and its reason; the item goes; all members are told once, with 201 |
| GroupRequests.EditRequest | ServerIList/Manager.cpp:238-244 | code 22: each refusal and its reason; the item is replaced, or nothing on a taken name; all members are told once, with 202 |
| AnswerRequests.RestoreRequest | ServerIList/Manager.cpp:246-251 | code 40: nothing changes; the only mail is the restore message, to the user |
| AccountRequests.UnknownSocket | ServerIList/Manager.cpp:95-96 | from an unknown socket anything but codes 1 and 2 is refused |
| AccountRequests.NotUnderstood | ServerIList/Manager.cpp:68-80 | the answer to a text that the parser refuses, by what is wrong with it |
| AccountRequests.WrongNumber | ServerIList/Manager.cpp:104-251 | a wrong number of arguments is refused, for every request |
| AccountRequests.NoRequest | ServerIList/Manager.cpp:104-253 | a code of the table without a case does nothing |
| Requests.MailArrives | ServerIList/Manager.cpp:294-318 | each user's mail is sent to the user's socket, or stored when the user is offline, in order and nothing else |
| ServerRuns.FailedRequestChangesNothing | ServerIList/Manager.cpp:68-80 | a request that throws changes no account, table, stored packet or sent message; at most the socket becomes known |
| Dispatch.PlainRequest | ServerIList/Manager.cpp:157-244 | in a plain message the group code of the operation is a literal, and so is the quantity of a new item |
| Dispatch.PlainIsNotChecked | ServerIList/Parser.cpp:9-37 | a packet that is not plain and that the parser accepts |
| ServerRuns.ServeKeepsGood | ServerIList/Manager.cpp:56-254 | every plain packet keeps tables, accounts and sessions consistent: registered names only, stored texts that can be sent, all references |
| ServerRuns.ServerRunIsStoreRun | ServerIList/Manager.cpp:85-254 | every run of plain packets is a run of at most one table operation for each packet |
| ServerRuns.CountersOnServer | ServerIList/PublicGroup.cpp:125-132 | after any plain packets to a fresh server counters agree, capacity holds and creators are admins |
| ServerRuns.AdminIsForeverOnServer | ServerIList/PublicGroup.cpp:213-217 | admin permanence over every sequence of plain packets |
| ServerRuns.RestoreRestores | ServerIList/Manager.cpp:246-251 | a restore request delivers one message that parses into one argument for each group and decodes to the user's groups |
| ServerRuns.DispatchedLoginIgnoresDuplicates | ServerIList/Manager.cpp:98-121 | under dispatch a login with the right password succeeds whoever is online |
| ServerRuns.ServeKeepsLink | ServerIList/Manager.cpp:56-139 | a packet keeps the session maps inverse if and only if it is no login that takes over a socket or a name |
| ServerRuns.UncontestedRunsStayLinked | ServerIList/Users.cpp:15-90 | over runs of plain packets the session maps are inverse after every packet if and only if no login of the run takes over a socket or a name |
| ServerRuns.TakeOverHappens | ServerIList/Users.cpp:28-38 | three packets to a fresh server after which one user is online on two sockets |
| ServerRuns.NamelessExactly | ServerIList/Manager.cpp:98-147 | under plain packets the first member without an account appears exactly when a known socket without a user creates a group |
| ServerRuns.NamelessHappens | ServerIList/Manager.cpp:98-147 | two packets after which a group has such a member |
| InviteReplay.SeenOfSendings | ServerIList/Manager.cpp:294-318 | to the socket of an online user, alone there, exactly the user's mail is sent, in order; to an offline user nothing |
| InviteReplay.InviteInbox | ServerIList/Manager.cpp:164-186 | the invited user gets one message with the group's name, one for each other member and one for each item |
| InviteReplay.InviteRebuildsGroup | ServerIList/Manager.cpp:157-188 | after an accepted plain invite each message goes out once; what is sent to a new member who is online rebuilds the group if and only if no member has the empty name, and for one who is offline everything is stored and nothing is sent |
| BroadcastSync.NoticeInbox | ServerIList/Manager.cpp:157-244 | a member other than the one just invited gets the announcement of an accepted request and nothing else |
| BroadcastSync.AnnouncementUnderstood | ServerIList/Manager.cpp:157-244 | doing what the announcement says is what the tables did, if and only if the request is faithful; a new item's quantity is a literal |
| BroadcastSync.PutUnderstood | ServerIList/PublicLists.cpp:24-39 | with a literal for a new item, an announced add is what happened if and only if the item is new, the sum with a literal stays within 32 bits, or nothing is added |
| BroadcastSync.EditUnderstood | ServerIList/PublicLists.cpp:140-146 | an announced update is what happened if and only if the new name is no other item's |
| BroadcastSync.MembersStayInSync | ServerIList/Manager.cpp:56-254 | for a plain packet: a member who is online with a faithful copy of the group has a faithful copy of the changed group from what is sent to the member's socket if and only if the accepted request is faithful; one who is offline keeps the old copy |
| Messages.PacketHead | ServerIList/Manager.cpp:257-292 | a printed packet that is accepted at all has its own code and first argument, whatever the arguments are |
| SyncRuns.MailIsDelivered | ServerIList/Manager.cpp:85-318 | all that leaves the server after a plain packet are the messages to users, in order, and at most one reply to the requesting socket, which is no news of members or items |
| SyncRuns.PacketKeepsSync | ServerIList/Manager.cpp:85-254 | for every plain packet, also one about other groups, a login, a restore or a refused one: what is sent to a member's socket brings the member's copy up to date if and only if the member is online and what is accepted is done as announced, or is offline and nothing changes |
| SyncRuns.RunsKeepSync | ServerIList/Manager.cpp:85-318 | over every run of plain packets a member's client that replays what is sent to the member's socket has the group after every packet, if and only if that holds of every packet |
| SyncRuns.OnlineMembersStayInSync | ServerIList/Manager.cpp:85-318 | for a member who is online throughout: if and only if everything accepted within the group is done as announced |
| SyncRuns.InvitedStayInSync | ServerIList/Manager.cpp:157-188 | the same from an accepted invitation on, starting from nothing, if and only if moreover the invited user was online and no member has the empty name |
| Overflow.UnfaithfulHappens | ServerIList/PublicLists.cpp:74-79 | a run from a fresh server whose last request is accepted and announced, and a member who is online and believes it has another list |
| Readers.AbsentMemberMisses | ServerIList/Manager.cpp:294-312 | a run from a fresh server after which an offline member is sent nothing of an accepted change and has another group |
| RestoreSync.RestoredStayInSync | ServerIList/Restore.cpp:12-48 | without separators in the texts: the first text a requesting online user sees decodes to the user's groups, and a client that goes on from there has a group after every packet if and only if nothing is missed |
| AccessRules.AcceptedIsAuthorized | ServerIList/PublicGroup.cpp:59-117 | what is accepted comes from a member, and from one with the level asked for if and only if it is no removal by a member who is no admin and no invitation by one without full control |
| AccessRules.LevelsOfMembers | ServerIList/Database.cpp:190-220 | what the statuses "admin", "fc", "rw" and "r" are enough for, by name |
| AccessRules.RulesByStatus | ServerIList/PublicLists.cpp:24-29 | without levels, on the meaning: list requests are accepted from members with status "admin", "fc" or "rw" only, and denied exactly to the others; expelling and changing a status is for "admin" and "fc", and never of an admin |
| AccessRules.DeniedExactly | ServerIList/PublicGroup.cpp:160-171 | what is refused for a lack of permission, exactly: never a removal of the group or an invitation |
| AccessRules.NoLevelIsNeeded | ServerIList/PublicGroup.cpp:81-135 | any member removes the group; any member invites, also an admin, as long as there is room |
| AccessRules.ChangesComeFromMembers | ServerIList/Manager.cpp:157-244 | a plain packet that changes a group comes from a known socket whose name is a member, with the level asked for unless its code is 14 or 16 |
| AccessRules.ReadersChangeNothing | ServerIList/Manager.cpp:157-244 | over every run of plain packets from readers and strangers that neither close nor invite, a group stays as it is |
| AccessRules.MailStaysInside | ServerIList/Manager.cpp:157-251 | the mail about a group goes to members before or after the operation, or to a user named like the code text when somebody is expelled; other mail to the user who logs in or restores |
| Readers.ReaderClosesGroup | ServerIList/PublicGroup.cpp:59-70 | a run from a fresh server in which a member with status "r" closes the group |

## Left out

- SQLite, SQL text and quoting: statements are operations on sequences of rows. The order of a query's rows is the
  order of insertion; SQL leaves it open, and where an index is used it is the order of the key. What a restore message
  means is stated for every order.
- Group codes and stored quantities are unbounded integers; codes are drawn from a counter that never goes back. A
  quantity beyond 64 bits, which SQLite would store as a floating-point number, stays an integer.
- AddItem: a quantity text for a new item that is no integer literal (digits after an optional minus sign) makes the
  insert fail; SQL expressions in its place are not evaluated.
- InviteCase: a group code that is no integer literal selects no group; SQL texts in its place are not evaluated.
- MessageHandler: for a packet that is not `Plain` the step is one of the model, in which such texts select no group and
  insert nothing, and not one of the program. Accounts and sessions do not depend on these texts.
- IncItem: overflow of `int` is undefined in C++ and modelled as 32-bit wrap-around.
- Mutexes, condition variables, threads and the locks that are unlocked twice or left locked by an exception; the
  `throw()` specifications of the methods.
- Sockets, `select`, buffers and partial reads: accepted handles, received texts and failing sends are inputs or
  nondeterministic choices. A handle that is accepted is assumed not to be open.
- Server.Poll: one round on a non-empty client list; the wait for the first client is not modelled.
- GetSock: under the model it is called for online names only, as the program does.
- Restore: the class is modelled with typed rows instead of vectors of strings.
- Dates: the current date is an input. Console output, table dumps, `AES`, `Program` and `main` are not modelled.
- The replay of stored packets at login, which is commented out (ServerIList/Manager.cpp:124-129), and the unused
  decItem and Logout by user name.
- The client is not part of the repository: how it reads a message about its group (`InviteReplay.Understand`) is the
  model's, taken from what each message carries. The reading of the notice that a group was removed is left out. A
  quantity text that is no integer literal is read as 0; a client that reads it like `stoi` would agree with the server
  about a text such as `5 apples` added to a listed item, which `Faithful` excludes.
- No delivery theorem for the notice at ServerIList/Manager.cpp:198, which is addressed to the group code; the machine
  still sends it.
- The success messages 100 and 106 and those with an empty argument do not parse, and no round trip is claimed for them.
