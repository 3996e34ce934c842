# groupChat in Dafny

A model of a group chat written in C (server, wire format, message queue, hash map, keysym lookup) with
proofs of what it promises. Five parts:

* **Message queue** (`queue.c`). `QueueSpec` says what one whole call does to the messages and to the
  node accounting; `ThreadQueues.ThreadQueue` is the linked list with its node pool, updated in place over
  an explicit memory in which only allocated nodes can be touched; `QueueProtocol` runs any number of
  threads through the mutex and the condition variable, statement by statement, with time-outs and
  spurious wake-ups.
* **Hash map** (`hashmap.c`). `HashTable` gives the open-addressing table a meaning, a stack of values for
  each key and, for histories that put only absent keys, a map; `HashMaps.HashMap` is the slot array with
  its probe loops and the recursion between put and rehash.
* **Wire format** (`util.c`, `msg_header.h`). `Wire` encodes and decodes, `Sockets` reads and writes streams
  that deliver arbitrary chunks, `Tokenizer` is `split`, `Credentials` the "username:password" payload.
* **Server** (`chat-server.c`). `TextFiles` is line-wise reading with `fgets`, `Accounts` the credential
  file, `Groups` the member lists, `FileNames` the names of uploads. `ServerSpec` is the server as a state machine (one step for an accepted connection, a
  handled packet, a disconnect); `OnlineIndex` and `Delivery` prove what holds over all its runs; `Server`
  has the handlers over the real lists, file and hash map, each proved to do its step.
* **Keysyms** (`keysyms.c`). `Keysyms` compares the lookup with section 5 (Keyboards) of the X Window System
  Protocol, Version 11, and proves the inverse search.

Where the code and its documentation differ, the model follows the code:

* `send_main_header` returns 0 when everything was sent; `util.h:45` promises 1. After a short write
  `send_wrapper` reads instead of writing, so the rest is never sent. `find_username` returns -10
  on failure, not -1, which shortens the notice about an upload by an unknown sender
  (`ServerSpec.UnknownSenderCutsNotice`).
* The comment at `keysyms.c:112-187` repeats a caseless first keysym in the second column; the code answers
  NoSymbol. `Keysyms.FollowsProtocolIff` says exactly where the two differ.
* Joining a group needs no invitation, and uploading to a group no membership. A download may name any
  group the user is in: nothing ties an upload to its group.
* `hashmap_put` counts an overwrite as a new element, so a table can be rehashed while slots are unused, and
  the rehash then puts their blank key. `HashTable.RehashKeepsLookupsIff` says when lookups survive;
  `HashMaps.NewMapResurrectsZero` is a run, in a new map and under any hash, that makes a key nobody put appear.
* A user who logs in again on the same connection is put twice. `OnlineIndex.LoginKeepsIndexIff` says when a
  login keeps the index right; `Delivery.RepeatedLoginLeavesClosedConnection` is a run, possible under any
  hash, after which the hash map finds a closed connection.
* `create_user` appends any name and password; `Accounts.LineReadsBackIff` says which of them read back.
* `hashmap_rehash` calls `hashmap_put`, which locks a mutex that is already held and not recursive. The model
  takes the nested calls as running under the outer lock.
* A user name of eight characters passes the length check but loses its terminator
  (`Credentials.CredentialsRoundTripIff`).
* `split` never terminates its last token. A download splits that token again and reads on behind it, for every
  upload; the number it scans is the right one only because a '.' comes first. `FileNames.NumberIsReadIff` is the
  exact condition, `FileNames.JunkChangesNumber` a name for which another number can be read.
* A lookup of a name or password compares only as many characters as are stored
  (`Accounts.LoginYieldsIff`, `Accounts.FindUidYieldsIff`, `Accounts.BobbyIsTakenForBob`).

## Model

| member | source | states |
|---|---|---|
| QueueSpec.StepKeepsSound | queue.c:73-158 | Every completed add, get or timed-out get keeps: pool ≤ length/4 + 2560 and ≤ peak/8 + 257, allocated minus freed nodes = length + pool, and added = delivered followed by queued. |
| QueueSpec.EveryRunIsSound | queue.c:73-158 | The same after every history of calls. |
| QueueSpec.DeliveriesAreAdditions | queue.c:73-158 | After any history from the empty queue the k-th delivery is the k-th addition, the queue holds the rest in order, and live nodes stay within the peak length plus the pool allowance. |
| QueueSpec.NeverPoolsAndTrims | queue.c:31-49 | One release never both keeps its node and trims the pool, and the single trim restores the pool bound although the length just fell by one. |
| QueueSpec.ReleaseMovesPool | queue.c:31-49 | A release grows the pool by one up to length/8 + 256 nodes, shrinks it by one above length/4 + 2560, and in between frees the released node only. |
| QueueSpec.OneNodeForAll | queue.c:16-49 | Any number of messages that are taken as soon as they are added, delivered in turn, needs one allocation and no free. |
| QueueSpec.PeakIsReached | queue.c:96-146 | The peak in the pool bound is the largest length that any prefix of the history reached. |
| ThreadQueues.ThreadQueue.constructor | queue.c:51-71 | A new queue is empty, with an empty pool. |
| ThreadQueues.ThreadQueue.GetMsglist | queue.c:16-29 | The node handed out comes from the pool or is new, and belongs to neither list nor pool; the list is untouched. |
| ThreadQueues.ThreadQueue.ReleaseMsglist | queue.c:31-49 | The held node goes back to the pool with its data cleared or is freed once; the pool chain stays acyclic and of the counted length, the message list untouched. |
| ThreadQueues.ThreadQueue.LinkTail | queue.c:85-92 | Linking a node appends its message to the sequence the `first` chain spells and makes it `last`. |
| ThreadQueues.ThreadQueue.AddMessage | queue.c:73-101 | Add appends exactly the given message and broadcasts if and only if the queue was empty; the chains keep their shape. |
| ThreadQueues.ThreadQueue.GetMessage | queue.c:103-158 | A get returns and removes the head and reports the remaining length; one that timed out changes nothing, even when a message is there. |
| ThreadQueues.ThreadQueue.Length | queue.c:194-203 | The counter is the number of queued messages. |
| ThreadQueues.ThreadQueue.NoLeak | queue.c:16-49 | The allocated nodes are those of list and pool, as many as the allocator calls of the history leave. |
| ThreadQueues.ThreadQueue.FreeChain | queue.c:174-184 | Frees each node of one chain once and nothing else; with `freedata`, each of its data pointers once. |
| ThreadQueues.ThreadQueue.Cleanup | queue.c:161-192 | No node is left allocated, none is freed twice, and with `freedata` exactly the data of the pending messages is freed, in order. |
| ThreadQueues.FreedWasNeverHandedOut | queue.c:31-42 | If no pointer but NULL was added twice, nothing clean-up frees was returned by a get. |
| QueueProtocol.StepKeepsMutex | queue.c:73-158 | In every interleaving exactly the holder of the lock is inside a critical section. |
| QueueProtocol.StepKeepsCounted | queue.c:94-96 | The counter equals the list length up to the lag fixed by the statement the lock holder is at. |
| QueueProtocol.StepKeepsSleepers | queue.c:94-95 | A thread sleeps un-notified only while the queue is empty or the thread that linked the first message is about to broadcast. |
| QueueProtocol.StepKeepsInv | queue.c:73-158 | Every enabled action of any thread keeps all invariants: mutual exclusion, counter, sleepers, FIFO, each thread's logs and the sequential explanation. |
| QueueProtocol.NoLostWakeup | queue.c:86-147 | After any interleaving of any number of producers and consumers: when the mutex is free and a message waits, no consumer is asleep un-notified. |
| QueueProtocol.DeliveredOnceInOrder | queue.c:73-158 | In every interleaving the k-th unlink takes the k-th link, the rest is the queue, and each producer's messages are taken in the order of its calls. |
| QueueProtocol.TimedOutGetTookNothing | queue.c:127-138 | What a consumer's gets returned is exactly what it unlinked, so a get that reported ETIMEDOUT took nothing. |
| QueueProtocol.EveryGetIsAccounted | queue.c:124-157 | In every interleaving a thread's calls of get are as many as the messages they returned, plus those that reported ETIMEDOUT, plus one if it is inside a get: none returns with neither. |
| QueueProtocol.GetEndsOneWay | queue.c:127-157 | A get ends by returning exactly one message or by reporting ETIMEDOUT, the latter only if it was timed and its time ran out since it was called; so an untimed get that is over has returned one message. |
| QueueProtocol.GetOnEmptySleeps | queue.c:127-134 | A get that finds the queue empty sleeps and gives the mutex back. |
| QueueProtocol.SpuriousWakeSleepsAgain | queue.c:126-134 | A sleeper woken for no reason finds the queue empty and sleeps again. |
| QueueProtocol.ExpiredGetReports | queue.c:127-138 | A wait whose time ran out reports ETIMEDOUT as soon as it has the mutex and takes nothing, even if a message is there. |
| QueueProtocol.BroadcastsIffCounterZero | queue.c:94-95 | The statement after linking wakes sleepers if and only if the counter is 0. |
| QueueProtocol.Linearizable | queue.c:73-158 | Every interleaving is explained by one sequential history with the same queue, additions and deliveries, so the pool bounds and conservation hold in it. |
| QueueProtocol.HolderReleases | queue.c:73-158 | From every state with mutual exclusion the holder of the mutex can run on alone and lets go within four statements. |
| QueueProtocol.ConsumerIsServed | queue.c:124-157 | With a free mutex and a waiting message, any consumer inside get that has not timed out can on its own take and return the head. |
| HashTable.RoomIsFound | hashmap.c:77-102 | While a slot is free, put's probe reaches a slot that is free or holds the key, wherever it starts. |
| HashTable.PutKeepsSane | hashmap.c:142-172 | Put keeps the slots in use at most the counter, and the counter at most the table size. |
| HashTable.RemoveKeepsSane | hashmap.c:286-321 | So does remove. |
| HashTable.KeyStepMeetsTop | hashmap.c:177-210 | The scan of get and remove ends at the top of the key's stack, or past the table exactly when the stack is empty: holes hide nothing. |
| HashTable.PutOnOwnStack | hashmap.c:142-172 | Put replaces the top value when it meets the key before a hole, and otherwise pushes a second one. |
| HashTable.PutSparesOthers | hashmap.c:142-172 | Put changes no other key's stack. |
| HashTable.RemoveOnStacks | hashmap.c:286-321 | Remove pops the key's stack, which may uncover an older value, and changes no other. |
| HashTable.CopiedStacks | hashmap.c:127-133 | At each point of the copying loop no used slot has a hole on its probe path, and each key copied so far has exactly the value of its last old slot. |
| HashTable.RehashStacks | hashmap.c:107-137 | Rehashing any table doubles it, sets the counter to the old size, and leaves each key the value of the last old slot carrying it, used or not. |
| HashTable.RehashKeepsMap | hashmap.c:107-137 | Rehashing a full table of distinct keys keeps exactly its map. |
| HashTable.RehashKeepsLookupsIff | hashmap.c:107-137 | For any table, whatever its unused slots hold and however many values a key has: a rehash keeps what get answers for every key if and only if each slot that is the last to carry its key agrees with the slot a probe for that key ends at. |
| HashTable.BlankSlotsKeepLookupsIff | hashmap.c:107-137 | The case overwrites lead to, one value a key and blank unused slots: all stacks survive if and only if no slot is unused or key 0's own value outlives the blanks. |
| HashTable.OverwritesResurrectZero | hashmap.c:153-169 | In a new table of any size n ≥ 2 and under any hash, n puts of one key other than 0 and a put of a second make key 0, never put, found with NULL. |
| HashMaps.NewMapResurrectsZero | hashmap.c:12-46 | The same in the 1024 slots that hashmap_new allocates. |
| HashTable.PutAbsentIsUpdate | hashmap.c:142-172 | Put of an absent key is map update, also when it rehashes first. |
| HashTable.RemoveIsDeletion | hashmap.c:286-321 | Remove is map deletion. |
| HashTable.HistoryIsMap | hashmap.c:77-321 | Every history that puts only absent keys, with any rehashes and holes, leaves exactly the map, with unique used keys and an exact counter. |
| HashTable.HistoryIsStacks | hashmap.c:77-321 | Every history, present keys put or not and with any rehashes, is the map from keys to stacks: put replaces or pushes, remove pops, a rehash leaves each key the value of its last slot. |
| HashMaps.HashMap.constructor | hashmap.c:34-51 | A new table stands for the empty map. |
| HashMaps.HashMap.Hash | hashmap.c:77-102 | Returns the first slot on the probe path that is free or holds the key, or MAP_FULL exactly when the counter has reached the table size. |
| HashMaps.HashMap.RehashAll | hashmap.c:107-137 | The loop of nested puts computes the rehashed table; no nested put finds the new table full, so the recursion ends. |
| HashMaps.HashMap.PutValue | hashmap.c:142-172 | Succeeds after at most one doubling, with the table of the specification. |
| HashMaps.HashMap.Get | hashmap.c:177-210 | Returns the top of the key's stack, or MAP_MISSING and NULL exactly when it is empty. |
| HashMaps.HashMap.Remove | hashmap.c:286-321 | Blanks the slot get would read and lowers the counter; MAP_MISSING exactly when there is none. |
| HashMaps.HashMap.GetOne | hashmap.c:215-246 | Returns the lowest used slot's value, optionally taking the slot out; MAP_MISSING exactly when no slot is used. |
| HashMaps.TakeSlotIsDeletion | hashmap.c:230-240 | Taking a used slot out that way deletes exactly its key from the map, although key and data stay in the slot. |
| HashMaps.HashMap.Iterate | hashmap.c:253-281 | Calls the callback on the used slots in index order up to the first status that is not MAP_OK, and returns that status. |
| HashMaps.AllVisited | hashmap.c:253-281 | A callback that always returns MAP_OK is shown every value. |
| HashMaps.UsedCounts | hashmap.c:267-275 | The values offered are as many as the slots in use. |
| HashMaps.UsedAreMet | hashmap.c:267-275 | A value is offered if and only if a used slot holds it. |
| HashMaps.HashMap.Length | hashmap.c:332-336 | The reported length is never below the number of used slots. |
| Wire.SwapReverses | util.c:100-101 | Swapping reverses an integer's bytes and undoes itself. |
| Wire.SwappedImageIsNetwork | util.c:97-104 | A header swapped in place lies in memory in network order, and swapping what was read restores it. |
| Wire.NetworkIsBigEndian | util.c:97-104 | On the wire the high byte of uid and length comes first. |
| Wire.ResendIsRightIff | chat-server.c:250-253 | Sending one buffer a second time puts the right header on the wire if and only if swapping changes neither field: why each recipient gets a copy. |
| Wire.SecondSendScrambles | chat-server.c:250-253 | A second send of a header with uid 1 says uid 256. |
| Wire.TakeHeaderOfEncode | util.c:142-183 | Reading an encoded message off the front of a stream gives its header and payload and leaves the rest; for a file the body stays in the stream. |
| Wire.EncodingIsInjective | util.c:97-104 | Two different sequences of messages never give one stream. |
| Sockets.SafetyByte | util.c:110-115 | The one byte more that is allocated makes every payload read as a text, up to its first terminator; without it exactly the payloads that hold a terminator would. |
| Sockets.SendPacket | util.c:97-128 | Allocating a packet, copying a payload in and sending it appends exactly the packet's encoding to a steady connection. |
| Sockets.SendWrapper | util.c:201-215 | What goes out is the part the write took; only a full write leaves the incoming stream alone, because after a short one the loop reads. |
| Sockets.SendMainHeader | util.c:97-104 | Leaves the header swapped and writes a prefix of the packet's encoding, all of it if and only if the write takes everything, and then returns 0. |
| Sockets.SendCopies | chat-server.c:238-257 | Every recipient's stream grows by the same encoding of the packet, which itself stays unswapped. |
| Sockets.SendFile | util.c:7-45 | Writes the header and the whole file in 1024-byte pieces, in all exactly the encoded message; -1 and nothing written when the file cannot be opened. |
| Sockets.RecvWrapper | util.c:185-199 | However reads are cut: 1 with exactly the requested bytes, 0 when the peer closes first, -1 after an error; in each case nothing beyond what was delivered is taken off the stream. |
| Sockets.ReadMainHeader | util.c:142-183 | Takes exactly one header and its payload off the stream, or reports NULL when the stream ends inside them. |
| Sockets.ReceiveToFile | util.c:47-73 | Writes exactly the announced number of bytes to the file and leaves the rest of the stream. |
| Sockets.ReceiveAll | util.c:142-199 | For every sequence of packets and files and every way the stream is cut, the peer's loop ends and yields exactly that sequence. |
| Sockets.SendAll | util.c:7-128 | Sending packets and files one after the other writes exactly the encoding of the sequence. |
| Sockets.Transmit | util.c:7-199 | What one side sends over a steady connection the other side's loop receives, in order and nothing else. |
| Tokenizer.JoinOfTokens | util.c:243-302 | The tokens are free of the delimiter, one more than it occurs, and joining them gives the string back. |
| Tokenizer.TokensOfJoin | util.c:243-302 | Splitting a join of delimiter-free pieces gives exactly these pieces. |
| Tokenizer.PrefixTokens | util.c:282-299 | What a prefix of the string settles about the tokens stays: complete ones are final, the open one only grows. |
| Tokenizer.CountTokens | util.c:251-257 | The first pass counts the tokens. |
| Tokenizer.Allocate | util.c:263-280 | The sizing pass allocates one buffer for each token, distinct, of exactly the token's length plus one. |
| Tokenizer.Fill | util.c:282-299 | The filling pass writes each token into its own buffer, never outside it, and terminates all but the last. |
| Tokenizer.SplitString | util.c:243-302 | The whole of split: count, buffer sizes, contents, terminators. |
| Credentials.Strncpy | util.c:236-237 | Copies up to the terminator, pads with zeros to `n`, and leaves the rest of the buffer. |
| Credentials.ParseUsernamePw | util.c:217-241 | Fills both zeroed buffers from the text around the first ':', or rejects a part that is too long and leaves both alone. |
| Credentials.CredentialsRoundTripIff | util.c:130-140 | The server reads back the client's name and password if and only if the name has at most 7 characters and no ':' and the password at most 127. |
| Credentials.CredentialsThatDoNotReadBack | util.c:227-238 | A name of eight characters and a password of 128 are accepted and leave their buffers without a terminator; the name "a:b" does not read back. |
| Credentials.TooLongIsRefused | util.c:229-233 | A name of more than 8 characters or a password of more than 128 is refused with -1, both buffers left alone. |
| TextFiles.CutAppend | chat-server.c:82 | What is appended behind a newline is read as lines of its own. |
| TextFiles.OneLineIff | chat-server.c:74-82 | A text comes back from one fgets if and only if it has 1 to 255 bytes and no newline before the last. |
| TextFiles.Fgets | chat-server.c:82 | The reading loop takes exactly the first line. |
| TextFiles.FirstLineOf | chat-server.c:225 | Without a newline, fgets takes a text whole if it is shorter than the buffer and cuts it to one byte less than the buffer otherwise. |
| Accounts.LineRoundTrip | chat-server.c:143-151 | A line written for a legal account is cut back into its uid, name and password, and fits the 256-byte buffer. |
| Accounts.LineReadsBackIff | chat-server.c:191 | An account appended to the file is read back, as one line more than before with its uid, name and password, if and only if the name is not empty, neither text holds a space or a newline, and the line fits the buffer. |
| Accounts.AccountsThatDoNotReadBack | chat-server.c:191 | One account for each excluded case. |
| Accounts.NewlineMakesTwoLines | chat-server.c:176-180 | The name "a<newline>b" leaves two lines, the second without a third word. |
| Accounts.ListedAccountIsFound | chat-server.c:71-164 | In a file with no name beginning a later one, account i answers to its name, to uid i + 1 and to its credentials. |
| Accounts.CreationStores | chat-server.c:167-200 | Creation is refused, changing nothing, exactly when a stored name begins the new one; else it stores the account under the next number, and login yields the uid creation returned. |
| Accounts.CreationsKeepAccounts | chat-server.c:167-200 | Any sequence of creations keeps "no name begins a later one" and "uid = line number", earlier accounts first. |
| Accounts.AccountsAreStable | chat-server.c:71-200 | From an empty file, every account created by any sequence still answers to name, uid and credentials after any later creations. |
| Accounts.LoginYieldsIff | chat-server.c:131-164 | Login yields uid i + 1 if and only if account i is the first whose name and password begin what was given. |
| Accounts.LoginAcceptedIff | chat-server.c:139-163 | A login is accepted if and only if the name and password of some account begin what was given; else it is refused with -10. |
| Accounts.UnknownNameIsMissing | chat-server.c:78-98 | A name that no stored name begins is answered with -10. |
| Accounts.UnknownUidHasNoName | chat-server.c:110-127 | Only the uids from 1 to the number of accounts have names. |
| Accounts.FindUidYieldsIff | chat-server.c:87 | A lookup of a name yields uid i + 1 if and only if account i is the first whose name begins it. |
| Accounts.UnregisteredIsFoundIff | chat-server.c:87 | A name that is not registered is found if and only if a stored name is a proper beginning of it. |
| Accounts.BobbyIsTakenForBob | chat-server.c:87-155 | With only bob/pw created, the name "bobby" is found, and logs in as uid 1 with the password "pwx". |
| Accounts.CreationOnFile | chat-server.c:191-192 | Appending to the file adds, for all scans, exactly the line of the new account. |
| Accounts.CredentialFile.FindUidOf | chat-server.c:71-100 | The scan of the file returns the uid of the first line whose name begins the given one, or the error. |
| Accounts.CredentialFile.FindUsernameOf | chat-server.c:103-128 | The scan returns the name on the first line with this uid, if any. |
| Accounts.CredentialFile.MatchUserPwOf | chat-server.c:131-164 | The scan returns the uid of the first line that admits name and password, or the error. |
| Accounts.CredentialFile.CreateUserOf | chat-server.c:167-200 | The scan refuses a taken name or appends one line and returns its number. |
| Groups.AppendNode | util.c:75-95 | Linking a fresh node behind the last one appends its uid and keeps the list acyclic. |
| Groups.GroupTable.constructor | chat-server.c:27-28 | All 255 lists start empty. |
| Groups.GroupTable.CheckUserInGroup | chat-server.c:43-61 | 0 if and only if the uid is a member. |
| Groups.GroupTable.AddUserToGroup | chat-server.c:64-68 | Appends the uid to this list; every other list is as before. |
| Groups.GroupTable.NewGroup | chat-server.c:387-389 | Makes this list the creator alone; every other list is as before. |
| FileNames.FirstTokenIsSettledIff | util.c:282-299 | What lies behind an unterminated token cannot change the first token of its next split if and only if the token holds the delimiter. |
| FileNames.NumberIsReadIff | chat-server.c:597-600 | A download scans the number in the path, whatever memory holds behind the two unterminated tokens, if and only if a '.' follows in the second piece. |
| FileNames.JunkChangesNumber | chat-server.c:597-600 | The name "a_7" holds the number 7, and 79 is read when a 9 lies behind it. |
| FileNames.NumberOfUpload | chat-server.c:583-600 | The two splits of a download read the number back out of an upload's name, whatever lies behind its unterminated second piece. |
| FileNames.NumbersMakeNamesDistinct | chat-server.c:559-561 | Uploads with different numbers have different names, whatever their groups. |
| FileNames.NameOfFirstUpload | chat-server.c:17 | The first upload to group 0 is called "0_1.file". |
| FileNames.DownloadPathIs | chat-server.c:583-584 | The path is "./" and the name, cut to 99 bytes only if it is longer. |
| ServerSpec.CreateGroupOpensNext | chat-server.c:359-395 | A creation by a logged-in user opens the lowest unused gid with the creator as only member and answers with that gid. |
| ServerSpec.InviteRespKeepsShape | chat-server.c:449-480 | Accepting keeps the groups duplicate-free, without uid 0, allocated below the first empty one. |
| ServerSpec.InviteRespJoinsIff | chat-server.c:449-480 | A non-member of an existing group whose header is acceptable is its last member afterwards if and only if the payload begins with 'a'; every other group and field stays, and without joining nothing changes. |
| ServerSpec.OtherResponsesAreIgnored | chat-server.c:452-466 | A response without uid, with a payload that is too long, to a missing group or by a member changes nothing. |
| ServerSpec.CreateGroupNeedsLogin | chat-server.c:361-367 | Uid 0 is answered with the byte 244 (-12) and no group is opened. |
| ServerSpec.DownloadNeedsFile | chat-server.c:586-602 | A download by a non-member, or of a name that is not stored, changes and sends nothing. |
| ServerSpec.ActiveListAnswers | chat-server.c:526-551 | ACTIVE_LIST is answered to the connection that asks, with the uid it gave, and changes nothing. |
| ServerSpec.QuietEvents | chat-server.c:606-637 | Accepting a connection, closing one and an unknown command do exactly that and send nothing. |
| ServerSpec.LegalCredentialsArrive | chat-server.c:294-297 | The handlers see exactly the name and password a client filled in, for every legal account without ':' in its name. |
| ServerSpec.StepKeepsGroups | chat-server.c:279-637 | Every step keeps that shape, changes lists only at the tail, and raises the number of groups exactly at a creation. |
| ServerSpec.GroupsOverRuns | chat-server.c:279-637 | Over every run: group lists stay duplicate-free and without uid 0 and only grow at the tail, so creators stay first, and the number of groups grows by the number of creations. |
| ServerSpec.GidsInTurn | chat-server.c:359-395 | From the start, the creation after any run is answered with the number of creations before it, so gids go out as 0, 1, 2, … without reuse. |
| ServerSpec.NoticeIsWholeIff | chat-server.c:567-572 | The notice about an upload holds the whole sentence if and only if the sender is known. |
| ServerSpec.UnknownSenderCutsNotice | chat-server.c:567-572 | For an unknown sender it loses the last nine bytes of the file's name. |
| OnlineIndex.OnlyOpenConnections | chat-server.c:241-254 | With a right index every entry is an open connection logged in as that uid, the only one. |
| OnlineIndex.LoginKeepsIndexIff | chat-server.c:329-345 | A login keeps the index right and the hash map standing for it if and only if the uid is below 65535, the connection has not logged in and the user is not indexed. |
| OnlineIndex.PresentPutMiscounts | hashmap.c:153-169 | A put of a key that is there leaves a table that stands for no map at all. |
| OnlineIndex.IterationIsOnlineOrder | chat-server.c:202-221 | Iterating over a hash map that stands for a right index meets every logged-in connection exactly once and no other. |
| OnlineIndex.DisconnectKeepsAgreement | chat-server.c:630-637 | A disconnect keeps it right, also for a connection that never logged in and removes key 65535. |
| OnlineIndex.AcceptKeepsAgreement | chat-server.c:689-705 | So does accepting a connection. |
| OnlineIndex.StepIsMapOps | chat-server.c:329-345 | A step changes the index by its hash map calls alone, and puts only an absent key. |
| OnlineIndex.StepKeepsAgreement | chat-server.c:279-637 | Every step keeps the index right. |
| OnlineIndex.StepKeepsWell | chat-server.c:279-637 | Every step keeps the groups' shape, the index, and that the number in every stored file name is read alone. |
| OnlineIndex.IndexOverRuns | chat-server.c:279-637 | Over every run with one login for each connection and no user twice: a uid is indexed exactly when its connection is open and logged in as it, and accounts only grow. |
| OnlineIndex.TableServesIndex | chat-server.c:241-434 | The open-addressing table driven by the run's puts and removes stands for the index at its end. |
| Delivery.ForwardedTo | chat-server.c:231-258 | A forward writes one copy to each online member and none to any other connection. |
| Delivery.ForwardedToOpen | chat-server.c:231-258 | No write goes to a closed connection, and all carry the one message. |
| Delivery.ForwardedInOrder | chat-server.c:239-257 | Wherever the member list is cut, the writes to the front come before those to the back. |
| Delivery.ChatReachesOnlineMembers | chat-server.c:485-521 | An accepted chat adds exactly one "name:message" packet to each online member's output and nothing elsewhere; a rejected one adds nothing. |
| Delivery.ChatAcceptedIff | chat-server.c:488-510 | A chat is accepted if and only if its uid is a registered member of the group, under the registered name. |
| Delivery.InviteReachesNamedUser | chat-server.c:400-444 | A member's invitation goes to the connection logged in as the named user and to no other; anybody else's goes nowhere. |
| Delivery.InviteOfUnknownGoesNowhere | chat-server.c:425-431 | An invitation under a name that no stored name begins changes and sends nothing. |
| Delivery.CreateAccepted | chat-server.c:290-317 | USR_CREATE under a name that no stored name begins stores the account and is answered with the new line's number. |
| Delivery.CreateRefused | chat-server.c:310-317 | Any other stores nothing and is answered with uid 0 and the error byte 245. |
| Delivery.CreateThenLogin | chat-server.c:290-354 | After a successful creation and any further run, a login with the same name and password stores and answers the uid the creation announced; the index stays right and the hash map stands for it if and only if neither connection nor user is logged in. |
| Delivery.LoginRefusedIff | chat-server.c:322-352 | USR_LOGIN changes no connection and no index entry and answers uid 0 with the byte 246 (-10) if and only if no account's name and password begin what was given; otherwise it logs in one of the stored uids. |
| Delivery.RepeatedLoginLeavesClosedConnection | chat-server.c:322-354 | Under any hash, in a server with more than 1024 accounts, there are two users with whom this run of the handlers goes wrong: both log in, the first hangs up, the second logs in again and hangs up; the hash map still finds the closed connection. |
| Delivery.StepKeepsUpload | chat-server.c:557-565 | No step overwrites an earlier upload. |
| Delivery.UploadIsAnnounced | chat-server.c:557-576 | An upload by a registered user is stored under the next number, and every online member of the group is sent exactly one SEND_CHAT packet, name, " just send file ", file name and a zero byte; nobody else is sent anything. |
| Delivery.JustSendFileIs | chat-server.c:572 | The words in between, byte for byte. |
| Delivery.UnknownUploadIsAnnounced | chat-server.c:567-574 | For an unregistered uid the packet has no name and lacks the last nine bytes. |
| Delivery.UploadThenDownload | chat-server.c:557-604 | After an upload and any further run, a group member's download under its name sends back exactly the uploaded bytes, with the number in the uid field; a non-member gets nothing. |
| Delivery.ListHoldsNamesIff | chat-server.c:203-211 | Cut at its commas, the file of online users holds the names in slot order, one by one, and an empty rest, if and only if no name holds a comma. |
| Delivery.ActiveListNamesAll | chat-server.c:215-228 | An answer that fits the buffer names every logged-in connection exactly once and no other. |
| Delivery.RunKeepsSent | chat-server.c:279-637 | No run takes back or changes what was sent. |
| Delivery.StreamsAreReadable | chat-server.c:279-637 | Over every run, what any connection is sent meets what the stream reader needs. |
| Delivery.PeerReads | util.c:142-199 | So after every run its peer reads back exactly the messages addressed to it, in order, however the stream is cut. |
| Delivery.EveryRunOfTheServer | chat-server.c:659-705 | From the start of main, after every run: as many groups as creations, a right index served by the hash map, no entry for a closed connection, readable output. |
| Server.ChatServer.constructor | chat-server.c:658-660 | The initial data stand for the start state, with a right index. |
| Server.ChatServer.Forward | chat-server.c:231-258 | The walk over the real list and hash map sends what the specification says. |
| Server.ChatServer.ReadCredentials | chat-server.c:294-297 | Zeroed buffers filled by the parser read as the name and password in the payload. |
| Server.ChatServer.DoCreate | chat-server.c:290-317 | Does the USR_CREATE step on the credential file and answers with the uid that a login would yield. |
| Server.ChatServer.DoLogin | chat-server.c:322-354 | Does the USR_LOGIN step; the hash map goes on standing for the index, through a rehash if one happens. |
| Server.ChatServer.NextGroup | chat-server.c:370-373 | The search stops at the first empty group at or after the counter. |
| Server.ChatServer.DoCreateGroup | chat-server.c:359-395 | Does the CREATE_GROUP step on the lists. |
| Server.ChatServer.DoInvite | chat-server.c:400-444 | Does the INVITE step with all its rejections. |
| Server.ChatServer.DoInviteResp | chat-server.c:449-480 | Does the INVITE_RESP step. |
| Server.ChatServer.DoChat | chat-server.c:485-521 | Does the SEND_CHAT step with all its rejections. |
| Server.ChatServer.DoSendFile | chat-server.c:557-576 | Does the SEND_FILE step. |
| Server.FileNumber | chat-server.c:597-600 | The two splits hand sscanf the text of the path's number followed, where a token is unterminated, by what lies behind it. |
| Server.ChatServer.DoDownload | chat-server.c:581-604 | Does the DOWNLOAD_FILE step, whatever lies behind the unterminated tokens. |
| Server.ChatServer.ActiveUsers | chat-server.c:202-228 | Returns the names of the logged-in connections, each once with a comma behind it, in slot order, up to the first newline and at most 1023 bytes. |
| Server.ChatServer.DoActiveList | chat-server.c:526-551 | Answers ACTIVE_LIST with that text. |
| Server.ChatServer.Hangup | chat-server.c:630-637 | Does the disconnect step; the hash map goes on standing for the index. |
| Server.ChatServer.Admit | chat-server.c:689-705 | Does the step for an accepted connection. |
| Server.ChatServer.Handle | chat-server.c:279-628 | Every acceptable packet does its step of the state machine; groups, index, accounts and stored names stay right. |
| Keysyms.GetColumn | keysyms.c:219-240 | The loop and branches compute the lookup. |
| Keysyms.GetKeysym | keysyms.c:189-241 | NoSymbol outside the keycodes and columns, else the lookup in the key's row. |
| Keysyms.PaddingIsIgnored | keysyms.c:222-239 | Trailing NoSymbol entries change no column of any row. |
| Keysyms.ShortRowRepeatsGroup | keysyms.c:222-228 | A row of at most two entries, padding aside, uses group 1 as group 2. |
| Keysyms.FollowsProtocolIff | keysyms.c:112-240 | The first four columns follow the protocol's rules if and only if it is not the second column of a group whose second keysym is missing and whose first has no case. |
| Keysyms.ShiftedDigitIsLost | keysyms.c:112-240 | A key that carries only the digit 1 gives NoSymbol in the second column, where the protocol gives 1. |
| Keysyms.KeycodesAreExact | keysyms.c:260-281 | The listed keycodes are exactly those with a matching column, ascending, once each. |
| Keysyms.GetKeycode | keysyms.c:243-285 | The search returns that list ended by NoSymbol, or NULL when it is empty, and ends although the 8-bit counter wraps past 255. |
| Keysyms.SearchIsCompleteIff | keysyms.c:260-261 | The search finds every producing key if and only if keycodes start above 0 or no key produces the keysym. |
| Keysyms.KeycodeZeroIsMissed | keysyms.c:260-261 | With keycodes from 0, a keysym that key 0 produces is not found. |

## Left out

- ThreadQueues.ThreadQueue.AddMessage: memory is never exhausted, so no ENOMEM; the address malloc returns is a parameter. NULL arguments (EINVAL) cannot be passed.
- ThreadQueues.ThreadQueue.GetMessage: starts where the wait loop ends; the loop, its time-outs and the mutex are in QueueProtocol. The computation of the absolute time-out from the clock is not modelled.
- ThreadQueues.ThreadQueue.Cleanup: no thread may be inside; destroying the mutex and the condition, and the EBUSY it can return, are not modelled.
- ThreadQueues.ThreadQueue.NoLeak: nodes are entries of an explicit memory rather than Dafny objects, so that allocation and freeing can be counted.
- QueueProtocol.ConsumerIsServed: says that the consumer can always proceed alone, not that a fair scheduler makes it proceed.
- HashMaps.HashMap.Hash: the mixing constants of hashmap_hash_int do not matter; any function of the key is allowed. Keys are not limited to 64 bits, and table_size does not overflow an int.
- HashMaps.HashMap.PutValue: calloc never fails, so no MAP_OMEM; the nested locking is taken as above.
- Sockets.SendPacket: the connection is steady (writes take everything, no read fails), as for Sockets.SendCopies, Sockets.SendFile, Sockets.ReadMainHeader and Sockets.ReceiveAll; read_main_header takes the -1 of a failed read for success and goes on with what its buffer held. Lengths that would turn negative as C ints are excluded.
- Sockets.ReceiveToFile: the announced bytes must arrive; on an early end of the stream the loop never ends. Failing to open the file is not modelled.
- Sockets.SendCopies: a member without a connection is skipped in Server.ChatServer.ForwardTo, which logs messages; this method shows what the log means in bytes.
- Wire.SwappedImageIsNetwork: the host is little-endian.
- Credentials.ParseUsernamePw: a payload without ':' is excluded; the code then computes with NULL.
- Accounts.CredentialFile.FindUidOf: lines begin with a number that fits an int, and the line the scan stops at has its name; the code uses a missing word without a check, and after a word that is no number the previous line's uid. Failing to open the file is not modelled.
- Accounts.CredentialFile.CreateUserOf: the line the scan stops at has its name.
- Accounts.CredentialFile.MatchUserPwOf: lines begin with a number, and the line the scan stops at has its name and password.
- Accounts.CredentialFile.FindUsernameOf: lines begin with a number, and the name found fits the eight-byte buffer with its terminator.
- Accounts.LineReadsBackIff: texts hold no byte 0 and the uid fits an int, as C strings and ints do; the file ends with a newline or is empty, as create_user leaves it; a line appended behind a half-written one is not modelled.
- Accounts.AccountsAreStable: names of 1 to 7 and passwords of at most 127 characters without space or newline; Accounts.LineReadsBackIff says why.
- Server.ChatServer.DoCreate: illegal names and passwords, and 65534 or more accounts, are excluded; the code ignores the parser's refusal and would store an empty name.
- Server.ChatServer.DoLogin: a second login of a connection, or of a user from a second connection, is excluded; OnlineIndex.LoginKeepsIndexIff and Delivery.RepeatedLoginLeavesClosedConnection say what it breaks.
- Server.ChatServer.DoCreateGroup: a free group must be left; the search runs past the array otherwise, and its ERR_OUT_MEM branch comes too late to be reached.
- Server.ChatServer.Handle: gid 255 is outside the array and excluded; a member's download must name a file with a '_'. Handlers are atomic, the races between unsynchronised threads are not modelled, and every packet is sent whole.
- Server.ChatServer.DoDownload: the files are the uploads; other files below the working directory are not modelled.
- Server.ChatServer.ActiveUsers: the file in between always opens; two requests at a time would share it.
- main's socket calls, thread creation and log output; the per-connection message_queue field, which the server only initialises.
- keysyms.c: the case tables of xcb_convert_case and the xcb_is_* tests are constants of a header that is not part of this model; any pair of functions is allowed. The X connection and its reply are parameters; realloc never fails.
- chat-client.c: its command loops and prompts only call the functions above.
- gui.c: drawing, the message roll and the input buffer.
