# Verified model of libdicey's core

This project models the hard core of libdicey, the C library behind the `dicey-sys` crate, and proves what that
core promises over every input and every run:

- **Hash table** (`HashLayout`, `HashTable`, `HashTableApi`): one array holds bucket heads and overflow cells
  linked by offsets; removal leaves holes, growth is by 3/2, and a rehash walks a fixed list of primes. It answers
  every run of calls as a plain map does, and iterates over exactly that map.
- **Subscriptions** (`Subscriptions`): a client's set of string keys against a set of (path, trait, element)
  triples.
- **Sequence numbers** (`SequenceProtocol`, `Routing`, `Connection`, `ServerEnd`): client and server as one state machine over
  in-order pipes, with 32-bit wraparound: which requests the server rejects, and which task a response advances.
  `Connection` runs the client's own code through every run of the machine, and `ServerEnd` adds the server's
  pending requests at the other end.
- **Pending requests** (`PendingRing`, `PendingComplete`, `PendingSearch`, `CircularSearch`, `PendingLookup`,
  `PendingRequests`, `PendingRuns`, `PendingFifo`, `PendingCases`): the server's circular buffer with holes,
  bisection and growth, against a list from which requests are taken in any order, and against a queue; and the
  runs on which it fails.
- **Signatures** (`TypeDescr`, `ValueCheck`): the recogniser of the type grammar, and the checker that walks a
  value and a signature's text in lockstep.
- **Builders and responses** (`Builders`, `RequestLifecycle`, `RequestRuns`): nested value builders over growing
  lists, the message builder, and the life of a request.
- **Base64** (`Base64`): encoder with line feeds and a precomputed buffer, decoder, round trip.

Classes with mutable fields stand for the C structs; a C pointer is an object reference or an index. C `assert`s
are taken as in a release build (no effect), except in `ValueCheck`, where a failed one is a third outcome.
Allocation always succeeds. The writer of the wire format and the server's send queue are parameters: their
results are inputs of the calls that use them. Text and keys are sequences of bytes or characters without NUL.

## Findings

Where a promise does not hold for all inputs, the model keeps what the code does and proves when it holds:

- *Numbering.* The client takes a number before it sends, and keeps it when sending fails; a server without a
  request handler drops requests unseen (dicey-sys/libdicey/src/ipc/server/server.c:995-997). Either makes the server reject the next
  request (`RejectedExactly`, `OneFailedSendKicks`).
- *Routing.* A response goes astray exactly when an entry waits for another request a whole number of periods of
  2^31-1 away, which is older or has the number to itself (`MisroutedExactly`, `RoutedRun`). A run in which every
  number is sent, registered and answered gets there (`PeriodLaterMisroutes`); none within a period does
  (`ShortRunsUnrivalled`).
- *Pending requests, order.* Completing the newest of several requests moves the end of the buffer forward, after
  which a search can miss an older request (`Completed`, `NewestFirstLosesOldest`). A full buffer at or below 80%
  occupation is compacted in place without moving its end, so the next addition overwrites the oldest request
  (`AddLoses`, `CompactionLosesOldest`). A number accepted after the wraparound while older requests are pending
  breaks the order (`Added`: the order survives exactly when the number follows the newest slot's), after which
  the oldest request is not found (`WraparoundHidesOldest`).
- *Pending requests, search in a window.* In a buffer that is not full, searching for a completed number whose slot
  is still in the window never ends (`SearchExactly`, `SearchForTheDoneHangs`), and searching for a number below
  the window makes the upper bound wrap (`SearchBelowWraps`), after which the search can be trapped for ever
  (`BelowHangs`, `SearchBelowHangs`).
- *Pending requests, search in a full buffer.* There the search starts from the largest size_t, and the sum of its
  bounds can wrap. What becomes of it depends only on the place of the number and on where the powers of 2 fall
  modulo the capacity (`SlotFate`, `GapFate`), and `FullExactly` says for every number whether the search ends, and
  how. A request in slot 0 is always found, but the oldest may lie behind holes (`HolesHideOldest`). Of
  twelve pending requests the ninth is searched for without end (`NinthOfTwelveHangs`), of eighteen the ninth is
  reported missing (`NinthOfEighteenIsMissed`). The search for a hole ends exactly when a request in its place
  would be missed.
- *Subscription keys.* Two different elements can share a key when a path contains `#` or a trait contains `:`
  (`UniqueExactlyWhen`, `CollidingElements`).
- *Builders.* The item count has 16 bits: a list of n items keeps the last n mod 65536 (`ListLeft`,
  `WrappedListIsEmpty`). Lists inside an array are not checked against the declared element type
  (`ArrayIsUniform`, `TupleAmongIntegers`).
- *Replies.* A reply with a value of no type returns OK, sends nothing and leaves the request answerable
  (`ReplyExactly`).
- *Signatures.* A value tuple that is shorter than its signature fails an assertion (`JudgeExact`,
  `ShortTupleAborts`). The recogniser accepts the empty text, and `#` (UUID), which the grammar in
  dicey-sys/libdicey/include/dicey/core/typedescr.h:71-97 leaves out.
- *Hash table.* The list of primes is only used up to 100663319, because there the 32-bit load factor never
  reaches the threshold again; a set can fail only when a capacity of 1431655766 would have to grow. A NULL value
  cannot be told from an absent key by `contains`.

## Model

| member | source | states |
|---|---|---|
| `HashLayout.Djb2` | dicey-sys/libdicey/src/sup/hashtable.c:143-157 | reducing at each byte gives 5381 * 33^n plus the unsigned bytes weighted by powers of 33, modulo 2^32 |
| `HashLayout.HashIsSum` | dicey-sys/libdicey/src/sup/hashtable.c:143-157 | the hash as that sum, with the first byte under the highest power |
| `HashLayout.WalkIsBucket` | dicey-sys/libdicey/src/sup/hashtable.c:102-141 | following `next` from a cell ends, visits strictly increasing offsets, and visits exactly the later cells of its bucket |
| `HashLayout.ChainsPartition` | dicey-sys/libdicey/src/sup/hashtable.c:102-141 | in every table that keeps the invariant, the walks of different buckets are disjoint and together cover all cells below free_cur, and every live key is in the walk of its own hash |
| `HashLayout.FindEntry` | dicey-sys/libdicey/src/sup/hashtable.c:102-141 | the walk of a bucket finds exactly the cell of the key, a hole whenever the bucket has one, and the bucket's last cell |
| `HashLayout.CountIsSize` | dicey-sys/libdicey/src/sup/hashtable.c:577-579 | the number of live cells is the number of keys represented |
| `HashTable.PrimeFacts` | dicey-sys/libdicey/src/sup/hashtable.c:44-49 | every usable bucket count exceeds its predecessor by at least 2, and its bounds |
| `HashTable.OverloadedExact` | dicey-sys/libdicey/src/sup/hashtable.c:353-357 | below the last usable bucket count the 32-bit load test is exact; at it, it never fires |
| `HashTable.NeedsRehash` | dicey-sys/libdicey/src/sup/hashtable.c:353-410 | the test lets a key pass exactly when the load bound survives, and when it fires there is a next bucket count |
| `HashTable.NextPrimeHasRoom` | dicey-sys/libdicey/src/sup/hashtable.c:223-281 | all keys of a table at the threshold and one more fit under the next prime without another rehash |
| `HashTable.GrownExact` | dicey-sys/libdicey/src/sup/hashtable.c:283-309 | growth by 3/2 in 32 bits is refused exactly from capacity 1431655766 on |
| `HashTable.Table.constructor` | dicey-sys/libdicey/src/sup/hashtable.c:188-208 | a new table satisfies the invariant and represents nothing |
| `HashTable.Table.Locate` | dicey-sys/libdicey/src/sup/hashtable.c:163-186 | the bucket of a key's hash yields its cell if and only if the key is in the table |
| `HashTable.Table.LiveBucket` | dicey-sys/libdicey/src/sup/hashtable.c:143-186 | the cell of every held key is in the chain of the bucket with number (5381 * 33^n + weighted bytes) mod 2^32 mod the bucket count |
| `HashTable.Table.Grow` | dicey-sys/libdicey/src/sup/hashtable.c:283-309 | growth keeps the represented map and the existing cells |
| `HashTable.Table.Append` | dicey-sys/libdicey/src/sup/hashtable.c:311-351 | a new cell at the end of a chain adds one binding and keeps all others; fails exactly when growth is needed and refused |
| `HashTable.Table.FillCell` | dicey-sys/libdicey/src/sup/hashtable.c:359-435 | reusing a hole of the bucket adds one binding and keeps all others |
| `HashTable.Table.RemoveKey` | dicey-sys/libdicey/src/sup/hashtable.c:533-557 | removal deletes its key only, returns its value and counts down |
| `HashTable.HashSet` | dicey-sys/libdicey/src/sup/hashtable.c:359-435 | sets one binding; UPDATED with the old value if and only if the key was present; fails exactly when its bucket has no hole and growth is refused; keeps the load bound |
| `HashTable.MoveOne` | dicey-sys/libdicey/src/sup/hashtable.c:223-281 | a set inside a rehash never rehashes, updates or fails |
| `HashTable.MoveAll` | dicey-sys/libdicey/src/sup/hashtable.c:223-281 | the rehash loop moves every live entry to a table with the next bucket count |
| `HashTable.RehashAndSetNew` | dicey-sys/libdicey/src/sup/hashtable.c:223-281 | a rehash keeps the represented map and adds the new key |
| `HashTableApi.Set` | dicey-sys/libdicey/src/sup/hashtable.c:559-575 | on any table that stands for a map, the update of that map, with its result and old value; FAILED only after more than 1.3 billion insertions |
| `HashTableApi.Get` | dicey-sys/libdicey/src/sup/hashtable.c:507-531 | the map's value or NULL, for null tables and keys too |
| `HashTableApi.Contains` | dicey-sys/libdicey/src/sup/hashtable.c:503-505 | true exactly for keys bound to a non-null value |
| `HashTableApi.Remove` | dicey-sys/libdicey/src/sup/hashtable.c:533-557 | the map without the key, and the removed value |
| `HashTableApi.Size` | dicey-sys/libdicey/src/sup/hashtable.c:577-579 | the cardinality of the map |
| `HashTableApi.IterNext` | dicey-sys/libdicey/src/sup/hashtable.c:456-501 | each call yields the next live cell's binding, in cell order, or ends |
| `HashTableApi.Iterate` | dicey-sys/libdicey/src/sup/hashtable.c:456-501 | an iteration yields every binding exactly once and nothing else, `size` items in all |
| `HashTableApi.Run` | dicey-sys/libdicey/src/sup/hashtable.c:359-579 | every run of calls from the NULL table is answered as by a plain map, through holes, growth and rehashes |
| `Subscriptions.FormatInjective` | dicey-sys/libdicey/src/ipc/elemdescr.c:29-59 | among paths without `#` and traits without `:` the key determines the element |
| `Subscriptions.FormatSpelled` | dicey-sys/libdicey/src/ipc/elemdescr.c:29-59 | over all texts the key is, in characters, the path, `#`, the trait, `:` and the element |
| `Subscriptions.UniqueExactlyWhen` | dicey-sys/libdicey/src/ipc/elemdescr.c:29-59 | among all elements, a key has one reading exactly when no part can be mistaken for a separator |
| `Subscriptions.ClientData.Subscribe` | dicey-sys/libdicey/src/ipc/server/client-data.c:135-150 | adds the key to the set, and succeeds whether or not it was there; fails only when the table is exhausted |
| `Subscriptions.ClientData.Unsubscribe` | dicey-sys/libdicey/src/ipc/server/client-data.c:152-156 | removes the key and reports whether it was there |
| `Subscriptions.ClientData.IsSubscribed` | dicey-sys/libdicey/src/ipc/server/client-data.c:125-127 | membership of the key, through the hash set over the table |
| `Subscriptions.Run` | dicey-sys/libdicey/src/ipc/server/client-data.c:125-156 | every run of subscribe, unsubscribe and is_subscribed answers as a set of keys, and over proper elements as a set of triples |
| `Subscriptions.KeysStandForElements` | dicey-sys/libdicey/src/ipc/elemdescr.c:29-59 | over proper elements a set of keys answers every run as the set of elements does |
| `Subscriptions.CollidingElements` | dicey-sys/libdicey/src/ipc/elemdescr.c:29-59 | two elements with one key, and a run that answers wrongly for one of them |
| `SequenceProtocol.SuccessorsAgree` | dicey-sys/libdicey/src/ipc/server/pending-reqs.c:57-59 | the client's and the server's successor agree exactly on the even numbers and those below 2^32-3 |
| `SequenceProtocol.SeqOfNext` | dicey-sys/libdicey/src/ipc/client/client.c:95-113 | both successors walk the same closed form 2 + 2((id-1) mod 2^31-1) |
| `SequenceProtocol.Client.IssueRequest` | dicey-sys/libdicey/src/ipc/client/client.c:681-709 | takes the next number, and registers the task as waiting for it exactly when the send is accepted |
| `SequenceProtocol.Client.GotResponse` | dicey-sys/libdicey/src/ipc/client/client.c:374-393 | advances the task of the first entry with that number and removes just that entry |
| `SequenceProtocol.Client.CleanUpTask` | dicey-sys/libdicey/src/ipc/client/client.c:1261-1271 | an ended task's entry is removed, and no other |
| `SequenceProtocol.FindSeq` | dicey-sys/libdicey/src/ipc/client/waiting-list.c:35-81 | the first entry with a number |
| `SequenceProtocol.InvStep` | dicey-sys/libdicey/src/ipc/client/client.c:132-161 | every step of client, pipes and server keeps the connection's invariant |
| `SequenceProtocol.RejectedExactly` | dicey-sys/libdicey/src/ipc/server/pending-reqs.c:228-284 | a request is rejected if and only if the numbers taken before it and never registered are not whole periods |
| `SequenceProtocol.NeverRejected` | dicey-sys/libdicey/src/ipc/server/pending-reqs.c:228-364 | over every run in which taken numbers are sent and requests are added or skipped, none is rejected, wraparounds included, and the packets in flight form one chain |
| `SequenceProtocol.OneFailedSendKicks` | dicey-sys/libdicey/src/ipc/client/client.c:681-709 | one number taken and not sent gets the next request rejected |
| `SequenceProtocol.ArriveInOrder` | dicey-sys/libdicey/src/ipc/client/client.c:132-161 | over every run, what comes out of each pipe followed by what is left in it is what was in it followed by what was sent: packets arrive in the order sent |
| `SequenceProtocol.ArrivedIsPrefix` | dicey-sys/libdicey/src/ipc/client/client.c:374-393 | from the start of a connection, the responses received are a prefix of those sent, and the requests delivered of those sent |
| `Routing.RoutedToOldest` | dicey-sys/libdicey/src/ipc/client/client.c:374-393 | a response advances the issuer of the oldest waiting request that shares its number, and nobody when there is none |
| `Routing.MisroutedExactly` | dicey-sys/libdicey/src/ipc/client/client.c:374-393 | a response advances a task other than its issuer if and only if another entry waits whole periods away that is older, or nobody waits for the response |
| `Routing.RoutedExactly` | dicey-sys/libdicey/src/ipc/client/client.c:374-393 | it advances its issuer if and only if that waits and has no such rival |
| `Routing.RoutedToIssuer` | dicey-sys/libdicey/src/ipc/client/client.c:374-393 | with fewer than a period of requests between them, a response advances its own issuer if that still waits, and nobody else |
| `Routing.AdvancedOnceAndAlive` | dicey-sys/libdicey/src/ipc/client/client.c:374-393 | no task is advanced twice or after it ended |
| `Routing.WaitingDistinct` | dicey-sys/libdicey/src/ipc/client/client.c:537-539 | entries less than a period apart wait for different numbers, and only the handshake for 0 |
| `Routing.RoutedRun` | dicey-sys/libdicey/src/ipc/client/client.c:132-161 | over every run, responses advance only the tasks that sent their requests if and only if none of them meets a rival |
| `Routing.ShortRunsUnrivalled` | dicey-sys/libdicey/src/ipc/client/client.c:95-113 | no run of at most 2^31-1 requests, the handshake included, has rivals |
| `Routing.QuietRun` | dicey-sys/libdicey/src/ipc/client/client.c:1261-1271 | from any moment of any run on, no task is advanced that has ended by then or was advanced before |
| `Routing.EveryRun` | dicey-sys/libdicey/src/ipc/client/client.c:95-161 | after every legal run from a new connection: the invariant, no rejection without broken numbering, right routing exactly without rivals and always within a period, and quiet after the end of a task |
| `Routing.PeriodLaterMisroutes` | dicey-sys/libdicey/src/ipc/client/client.c:374-393 | a run of a full period without a lost number in which a response advances a task that never asked for it |
| `Connection.Link.Do` | dicey-sys/libdicey/src/ipc/client/client.c:374-393 | each step of the connection, with the client's own code at its end, is the step of the state machine |
| `Connection.RunAll` | dicey-sys/libdicey/src/ipc/client/client.c:681-709 | over every run the client object's counter and waiting list are those of the machine, so that nothing is rejected without broken numbering and routing is right exactly without rivals |
| `ServerEnd.Session.Do` | dicey-sys/libdicey/src/ipc/server/pending-reqs.c:228-307 | each event of the connection with its call on the buffer: the request is accepted exactly when the machine does not reject it, and a response completes its own request |
| `ServerEnd.RunAll` | dicey-sys/libdicey/src/ipc/server/pending-reqs.c:228-364 | over every run whose calls on the buffer are safe, the connection runs as the machine says and the pending requests are those that were kept and not answered, in their order |
| `PendingRing.PushKeeps` | dicey-sys/libdicey/src/ipc/server/pending-reqs.c:243-284 | an addition appends to the pending requests, and keeps the order exactly when its number is the highest |
| `PendingRing.EnlargedKeeps` | dicey-sys/libdicey/src/ipc/server/pending-reqs.c:139-204 | growth keeps all pending requests in order, drops the holes and makes room |
| `PendingRing.ModIsRemainder` | dicey-sys/libdicey/src/ipc/server/pending-reqs.c:43-45 | the model's index by repeated subtraction is the remainder |
| `PendingComplete.CompleteOldest` | dicey-sys/libdicey/src/ipc/server/pending-reqs.c:61-81 | completing the oldest request shortens the window by it and keeps the order |
| `PendingComplete.CompleteMiddle` | dicey-sys/libdicey/src/ipc/server/pending-reqs.c:61-81 | completing a request in the middle takes out just that one and keeps the order |
| `PendingComplete.CompleteNewest` | dicey-sys/libdicey/src/ipc/server/pending-reqs.c:76-77 | completing the newest of several keeps the order exactly when nothing else is pending and the end meets the start, or in a full buffer when only the oldest is |
| `PendingComplete.Completed` | dicey-sys/libdicey/src/ipc/server/pending-reqs.c:61-81 | invalidating any request of any buffer in order: the window afterwards, that exactly this request is taken out unless it is the newest of a full buffer, and exactly when the order survives |
| `PendingSearch.SearchExactly` | dicey-sys/libdicey/src/ipc/server/pending-reqs.c:106-133 | over any window with increasing numbers: the bisection answers rightly in finitely many rounds unless the number is in a hole, where it never ends, or below the window, where the upper bound wraps |
| `PendingLookup.FullExactly` | dicey-sys/libdicey/src/ipc/server/pending-reqs.c:106-133 | in a full buffer, the search for any number whatsoever: it never ends if and only if its place says so, and otherwise returns the request, or misses it, a hole or a gap, as its place says |
| `PendingLookup.FullHangs` | dicey-sys/libdicey/src/ipc/server/pending-reqs.c:106-133 | the searches of a full buffer that do not come back stay open at every round |
| `CircularSearch.Advance` | dicey-sys/libdicey/src/ipc/server/pending-reqs.c:106-133 | each round moves a search through the lower half or down the powers of 2, or ends it, within the lower half of size_t |
| `CircularSearch.StageFate` | dicey-sys/libdicey/src/ipc/server/pending-reqs.c:106-133 | where a search stands determines whether it finds, misses or hangs |
| `PendingLookup.WindowSearches` | dicey-sys/libdicey/src/ipc/server/pending-reqs.c:106-133 | in a window, the search for a hole never ends, and the search below it wraps its upper bound |
| `PendingLookup.BelowHangs` | dicey-sys/libdicey/src/ipc/server/pending-reqs.c:106-133 | after that, the search never ends when the powers of 2 meet lower numbers outside the window |
| `PendingLookup.SearchSeq` | dicey-sys/libdicey/src/ipc/server/pending-reqs.c:106-133 | the loop returns the right answer in a window, and in a full buffer, whose length reads as 0, what the place of the number says |
| `PendingRequests.CopyLive` | dicey-sys/libdicey/src/ipc/server/pending-reqs.c:183-193 | the copy loop yields exactly the pending requests in order, then empty slots |
| `PendingRequests.CompactHere` | dicey-sys/libdicey/src/ipc/server/pending-reqs.c:183-193 | the same loop in place moves the requests to the front and leaves the slots behind them |
| `PendingRequests.AddKeeps` | dicey-sys/libdicey/src/ipc/server/pending-reqs.c:243-284 | an addition into a buffer with room, or a grown one, appends, and keeps the order exactly when the number comes after the newest slot's |
| `PendingRequests.AddLoses` | dicey-sys/libdicey/src/ipc/server/pending-reqs.c:139-284 | an addition to a full buffer whose end was not moved overwrites the oldest request and leaves a window of one slot |
| `PendingRequests.Requests.MakeRoom` | dicey-sys/libdicey/src/ipc/server/pending-reqs.c:139-204 | above 80% occupation a larger buffer with the same requests, otherwise compaction in place with both ends as they were |
| `PendingRequests.CrowdedExactly` | dicey-sys/libdicey/src/ipc/server/pending-reqs.c:139-204 | that occupation is the integer percentage of live requests among the slots, and the test is for more than 80 |
| `PendingRequests.Requests.Add` | dicey-sys/libdicey/src/ipc/server/pending-reqs.c:243-284 | accepts exactly the successor of the last number; the pending requests afterwards, and the exact condition under which the buffer stays in order |
| `PendingRequests.Requests.Complete` | dicey-sys/libdicey/src/ipc/server/pending-reqs.c:286-307 | for every number whose search comes back: the request that is returned and the buffer afterwards, or none when no request has the number or a full buffer's search misses it |
| `PendingRequests.Requests.Skip` | dicey-sys/libdicey/src/ipc/server/pending-reqs.c:347-364 | accepts exactly the successor and changes the last number only |
| `PendingRuns.ViewIsBook` | dicey-sys/libdicey/src/ipc/server/pending-reqs.c:61-284 | under a safe call a window with holes changes as its list of requests does |
| `PendingRuns.Run` | dicey-sys/libdicey/src/ipc/server/pending-reqs.c:206-364 | every run of add, skip and complete in any order whose calls are safe is answered as by a list from which requests are taken by number, through holes and growth |
| `PendingFifo.ShortRuns` | dicey-sys/libdicey/src/ipc/server/pending-reqs.c:228-284 | in runs shorter than a period, stored numbers never straddle the wraparound |
| `PendingFifo.DisciplinedRun` | dicey-sys/libdicey/src/ipc/server/pending-reqs.c:206-364 | answering oldest first is always safe, and the list is then a queue |
| `PendingFifo.Run` | dicey-sys/libdicey/src/ipc/server/pending-reqs.c:206-364 | every run of add, skip and oldest-first complete, through any number of growths, is answered as by a queue |
| `PendingCases.CompactionLosesOldest` | dicey-sys/libdicey/src/ipc/server/pending-reqs.c:139-284 | a run of fifteen calls after which the next request overwrites the oldest of nine |
| `PendingCases.SearchForTheDoneHangs` | dicey-sys/libdicey/src/ipc/server/pending-reqs.c:106-133 | a run after which the search for an answered number never ends |
| `PendingCases.SearchBelowWraps` | dicey-sys/libdicey/src/ipc/server/pending-reqs.c:106-133 | a run after which the search for an answered number wraps its upper bound |
| `PendingCases.SearchBelowHangs` | dicey-sys/libdicey/src/ipc/server/pending-reqs.c:106-133 | that search never ends |
| `PendingCases.HolesHideOldest` | dicey-sys/libdicey/src/ipc/server/pending-reqs.c:106-133 | a run of safe calls after which the search for the oldest pending request, behind eight holes of a full buffer, never ends |
| `PendingCases.WraparoundHidesOldest` | dicey-sys/libdicey/src/ipc/server/pending-reqs.c:243-284 | a run through the wraparound after which the search misses the oldest pending request |
| `PendingCases.NinthOfTwelveHangs` | dicey-sys/libdicey/src/ipc/server/pending-reqs.c:106-133 | with twelve requests pending, the search for the ninth never ends |
| `PendingCases.NinthOfEighteenIsMissed` | dicey-sys/libdicey/src/ipc/server/pending-reqs.c:286-307 | with eighteen requests pending, completing the ninth reports that there is none |
| `PendingCases.NewestFirstLosesOldest` | dicey-sys/libdicey/src/ipc/server/pending-reqs.c:61-133 | a run after which the search misses a pending request |
| `TypeDescr.PrefixFree` | dicey-sys/libdicey/src/wirefmt/typedescr.c:84-148 | no type's text is a proper prefix of another's, and texts determine types |
| `TypeDescr.ParseType` | dicey-sys/libdicey/src/wirefmt/typedescr.c:126-148 | accepts exactly when a type's text starts at the cursor, and stops right after it |
| `TypeDescr.ParseArray` | dicey-sys/libdicey/src/wirefmt/typedescr.c:84-92 | behind `[`, accepts exactly the rest of an array type |
| `TypeDescr.ParsePair` | dicey-sys/libdicey/src/wirefmt/typedescr.c:94-106 | behind `{`, accepts exactly the rest of a pair type |
| `TypeDescr.ParseTuple` | dicey-sys/libdicey/src/wirefmt/typedescr.c:108-124 | behind `(`, accepts exactly the rest of a tuple type of any arity from 1 |
| `TypeDescr.InView` | dicey-sys/libdicey/src/wirefmt/typedescr.c:150-168 | with any text appended, consumes exactly the printed type and identifies it |
| `TypeDescr.ParseArrow` | dicey-sys/libdicey/src/wirefmt/typedescr.c:68-80 | accepts exactly blanks, `->` and blanks |
| `TypeDescr.Parse` | dicey-sys/libdicey/src/wirefmt/typedescr.c:174-220 | accepts exactly the texts of the grammar with `#` added, and the empty text; splits operations into the texts of input and output |
| `TypeDescr.ParseLetter` | dicey-sys/libdicey/src/wirefmt/typedescr.c:32-34 | a text of one character is accepted exactly for the sixteen letters of the header, written out, and `#` |
| `TypeDescr.BlanksSpelled` | dicey-sys/libdicey/src/wirefmt/typedescr.c:50-56 | blanks are exactly space, tab, line feed, vertical tab, form feed and carriage return |
| `TypeDescr.ParseOpExample` | dicey-sys/libdicey/include/dicey/core/typedescr.h:60-62 | the header's `i -> s` is the operation from `i` to `s` |
| `TypeDescr.ParseMapExample` | dicey-sys/libdicey/include/dicey/core/typedescr.h:99-105 | the header's `[{sv}] -> y` is the operation from `[{sv}]` to `y` |
| `TypeDescr.ParseTupleExample` | dicey-sys/libdicey/include/dicey/core/typedescr.h:99-105 | the header's `(%@)` is a value type |
| `ValueCheck.JudgeExact` | dicey-sys/libdicey/src/wirefmt/value-validate.c:61-146 | the outcome is acceptance exactly when the value has the type, and a failed assertion exactly when a tuple is cut short before any mismatch |
| `ValueCheck.ShortTupleAborts` | dicey-sys/libdicey/src/wirefmt/value-validate.c:115-116 | an empty tuple against `(i)` fails the assertion |
| `ValueCheck.CheckSig` | dicey-sys/libdicey/src/wirefmt/value-validate.c:61-146 | on a type's text followed by anything, the outcome is the judgement by the type tree, and acceptance leaves the cursor right behind the text |
| `ValueCheck.CheckTuple` | dicey-sys/libdicey/src/wirefmt/value-validate.c:100-120 | the loop over items judges them against the item types in order |
| `ValueCheck.IsCompatibleWith` | dicey-sys/libdicey/src/wirefmt/value-validate.c:181-208 | judges by the value type, or by the input of an operation; rejects texts outside the grammar |
| `ValueCheck.CanBeReturnedFrom` | dicey-sys/libdicey/src/wirefmt/value-validate.c:148-179 | accepts errors always, otherwise judges by the value type or the output of an operation |
| `Builders.BuiltIsMeant` | dicey-sys/libdicey/src/wirefmt/builders.c:427-616 | a script of calls builds exactly the value it spells out if and only if values have types, array members set as a whole have the declared one, lists have fewer than 2^16 items and pairs two |
| `Builders.ArrayIsUniform` | dicey-sys/libdicey/src/wirefmt/builders.c:561-588 | the items of a built array have the declared type exactly when the lists among them do |
| `Builders.TupleAmongIntegers` | dicey-sys/libdicey/src/wirefmt/builders.c:466-512 | a tuple is built into an array of another declared type |
| `Builders.WrappedListIsEmpty` | dicey-sys/libdicey/src/wirefmt/builders.c:466-512 | a list of 2^16 items comes out empty |
| `Builders.ListLeft` | dicey-sys/libdicey/src/wirefmt/builders.c:466-512 | of any n well-formed items the last n mod 65536 are left, in order |
| `Builders.KindsSpelled` | dicey-sys/libdicey/src/wirefmt/builders.c:561-588 | the types of arrays, tuples, pairs and plain values, and that a slot takes a composite value exactly when it declares no type or that one |
| `Builders.BuiltReports` | dicey-sys/libdicey/src/wirefmt/builders.c:427-616 | the error of any script is that of its first offending call in the order of the calls: EINVAL for a value without a type, EVALUE_TYPE_MISMATCH for another type than declared, EOVERFLOW for a third item of a pair, EAGAIN for a pair ended with fewer than two; OK exactly when no call offends |
| `Builders.ValueBuilder.ListStart` | dicey-sys/libdicey/src/wirefmt/builders.c:125-147 | starts an empty list on a pending builder, refuses otherwise |
| `Builders.ValueBuilder.Grow` | dicey-sys/libdicey/src/wirefmt/builders.c:50-62 | a larger array with the same items |
| `Builders.ValueBuilder.Next` | dicey-sys/libdicey/src/wirefmt/builders.c:466-512 | one more slot, typed in arrays only, earlier items unchanged through growth; EOVERFLOW for the third item of a pair; the count wraps at 2^16 |
| `Builders.ValueBuilder.Set` | dicey-sys/libdicey/src/wirefmt/builders.c:561-588 | writes its slot only; EINVAL when not pending or for no type, EVALUE_TYPE_MISMATCH when the slot declares another type, OK otherwise |
| `Builders.ValueBuilder.ListEnd` | dicey-sys/libdicey/src/wirefmt/builders.c:427-450 | writes the list into the builder's slot only and clears the builder |
| `Builders.ValueBuilder.PairEnd` | dicey-sys/libdicey/src/wirefmt/builders.c:518-559 | writes a pair of exactly two items, EAGAIN otherwise |
| `Builders.Build` | dicey-sys/libdicey/src/wirefmt/builders.c:125-616 | running any script puts its value into the builder's slot and touches no other slot; a failing script changes none and returns the error of its first offending call |
| `RequestLifecycle.MessageBuilder.ValueStart` | dicey-sys/libdicey/src/wirefmt/builders.c:310-336 | lends a fresh empty root to a builder, only when pending |
| `RequestLifecycle.MessageBuilder.ValueEnd` | dicey-sys/libdicey/src/wirefmt/builders.c:338-358 | takes the root back from the builder it was lent to, and from no other |
| `RequestLifecycle.MessageBuilder.Finish` | dicey-sys/libdicey/src/wirefmt/builders.c:78-204 | an open builder with path and selector reaches the writer exactly when it is a get without a value or a set, exec, signal or response with one, EAGAIN otherwise; the packet has its parts and the builder is emptied, and any error leaves it as it was |
| `RequestLifecycle.GetMessage` | dicey-sys/libdicey/src/wirefmt/builders.c:78-204 | a get message from its start to its packet, which has the heading and no value |
| `RequestLifecycle.ValueMessage` | dicey-sys/libdicey/src/wirefmt/builders.c:78-358 | a message with a value built by any script: its errors in order, EAGAIN for a get, and otherwise the spelled value exactly for well-formed scripts |
| `RequestLifecycle.Request.constructor` | dicey-sys/libdicey/src/ipc/server/request.c:284-353 | a request starts in step with a message builder that carries its number, real path and selector |
| `RequestLifecycle.RequestFor` | dicey-sys/libdicey/src/ipc/server/request.c:284-353 | a packet that does not unpack and an element that does not exist yield their errors and no request, anything else a request in step |
| `RequestLifecycle.Request.Start` | dicey-sys/libdicey/src/ipc/server/request.c:264-282 | only a pending request and an idle builder; both states advance together |
| `RequestLifecycle.Request.Reset` | dicey-sys/libdicey/src/ipc/server/request.c:242-262 | the right builder makes the request pending again, another one changes nothing |
| `RequestLifecycle.Request.Send` | dicey-sys/libdicey/src/ipc/server/request.c:88-133 | hands over the built value under the request's own number, path and selector, and ends COMPLETED or ABORTED; a wrong builder aborts |
| `RequestLifecycle.Request.Reply` | dicey-sys/libdicey/src/ipc/server/request.c:44-65 | hands over the argument, or nothing for one without a type, which still says OK |
| `RequestRuns.AnsweredOnce` | dicey-sys/libdicey/src/ipc/server/request.c:44-262 | over every run at most one response is handed over, none while the request is answerable |
| `RequestRuns.NothingAfterTheEnd` | dicey-sys/libdicey/src/ipc/server/request.c:88-282 | an answered or aborted request refuses all further calls |
| `RequestRuns.ReplyExactly` | dicey-sys/libdicey/src/ipc/server/request.c:44-65 | of two replies to a waiting request, the first is handed over exactly when its value has a type; otherwise it says OK, the request still waits, and the second is handed over |
| `RequestRuns.Run` | dicey-sys/libdicey/src/ipc/server/request.c:44-353 | any run of start, fill, reset, send and reply with any builders keeps request and message builder in step, and hands over at most one response with the request's own number, path and selector |
| `RequestRuns.ScriptIsDelivered` | dicey-sys/libdicey/src/ipc/server/request.c:88-282 | start, script and send succeed and deliver the value the script spells out if and only if it is well-formed |
| `Base64.TablesAgree` | dicey-sys/libdicey/samples/util/src/base64.c:15 | alphabet and decoding table are inverse, and neither line feed nor padding is a symbol |
| `Base64.TableIsAlphabet` | dicey-sys/libdicey/samples/util/src/base64.c:15 | the encoder's table is, character by character, `A`-`Z`, `a`-`z`, `0`-`9`, `+` and `/` |
| `Base64.InverseIsLetters` | dicey-sys/libdicey/samples/util/src/base64.c:111-118 | the decoder marks exactly the characters outside the alphabet and `=` |
| `Base64.DecodingTable` | dicey-sys/libdicey/samples/util/src/base64.c:111-118 | the filled table has the rank of every character of the alphabet and marks all others |
| `Base64.QuadIsNumber` | dicey-sys/libdicey/samples/util/src/base64.c:52-55 | the six-bit groups of a block are the four base-64 digits of its 24-bit number, as section 4 of RFC 4648 has it |
| `Base64.EncoderBits` | dicey-sys/libdicey/samples/util/src/base64.c:52-55 | in eight bits the encoder's shifts, masks and ors are quotients, remainders and sums |
| `Base64.DecoderBits` | dicey-sys/libdicey/samples/util/src/base64.c:154-156 | in eight bits the decoder's shifts and ors of six-bit entries are products, quotients and sums |
| `Base64.LastIsPadded` | dicey-sys/libdicey/samples/util/src/base64.c:66-80 | the last block is that of zero-filled bytes, with padding for the empty digits |
| `Base64.OverflowExactly` | dicey-sys/libdicey/samples/util/src/base64.c:34-40 | the overflow test fires exactly from length 2^62 on, where the first product wraps |
| `Base64.LinesFit` | dicey-sys/libdicey/samples/util/src/base64.c:34-36 | characters, line feeds and terminator fit the computed size for every accepted length |
| `Base64.LinesLayout` | dicey-sys/libdicey/samples/util/src/base64.c:57-88 | character i stands at place i + i / 72, and a line feed behind every 72nd and the last |
| `Base64.Encode` | dicey-sys/libdicey/samples/util/src/base64.c:29-92 | every write is in bounds, and the buffer holds the RFC 4648 text in lines of 72, and a terminator |
| `Base64.RfcVectors` | dicey-sys/libdicey/samples/util/src/base64.c:50-80 | the vectors `foob`, `fooba` and `foobar` of section 10 of RFC 4648 |
| `Base64.EncodeFoobar` | dicey-sys/libdicey/samples/util/src/base64.c:29-92 | the encoder turns "foobar" into "Zm9vYmFy" and a line feed |
| `Base64.Decode` | dicey-sys/libdicey/samples/util/src/base64.c:104-178 | NULL exactly when the text has no letters, a number of letters not divisible by 4, or more than two `=` in its first padded block; otherwise the 24 bits of each block before it, and the upper bits of that one; and every non-empty input whose encoding the letters are, whatever stands between or behind them |
| `Base64.DecodedExactly` | dicey-sys/libdicey/samples/util/src/base64.c:120-177 | the same of the value that the loops compute, by counting characters, over all texts |
| `Base64.ReadBack` | dicey-sys/libdicey/samples/util/src/base64.c:120-177 | any text whose letters are those of an encoding decodes to the encoded bytes |
| `Base64.RoundTrip` | dicey-sys/libdicey/samples/util/src/base64.c:29-178 | decoding an encoding gives the bytes back exactly when there are any |
| `Base64.EncodeThenDecode` | dicey-sys/libdicey/samples/util/src/base64.c:29-178 | the same for the two functions run one after the other |

## Left out

- PendingRequests.Requests.Complete: only for numbers whose search is known to come back: all that do in a full buffer (`FullExactly`), and in a window all but those in a hole, whose search never ends, and those below the window, whose search goes on through slots outside it.
- PendingLookup.SearchSeq: the same numbers.
- PendingRuns.Run: covers fewer than 2^53 calls, so that the buffer fits into memory.
- PendingFifo.Run: covers fewer than 2^53 calls, too.
- Base64.Decode: reads characters as unsigned; where `char` is signed the C code indexes its table below 0 for bytes from 128 on.
- HashTableApi.Run: with assertions compiled in, the load factor's own assertion would stop a table at 42949673 entries; the model is the build without them.
- SequenceProtocol.Client.IssueRequest: whether a send succeeds is an input; the task loop is a supply of task ids that end once.
- `dicey_pending_requests_prune`: it passes a slot's position where an offset is expected and counts each removal twice, so nothing is claimed about it.
- `queue.c`: a bounded queue under a lock; only easy claims remain for pushes that do not wait.
- `client_on_read` framing, the task loop, the server loop, the registry and the DTF byte format are not part of this model.
- Deep type checks of array elements: the checker compares only the element tag, and so does the model.
- `dicey_packet_message` and the setters' null checks: compositions of modelled calls.
- Memory: allocation failure, ownership of keys and arguments, freeing, and leaks on error paths.
- Strings inside arguments, which the library never copies, are opaque payloads.
- Rust wrappers, Python bindings, JSON and XML loaders, dumpers, error tables and command-line samples.
