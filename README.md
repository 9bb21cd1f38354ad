# Tag-game relay server: a verified model of its game state

The server relays the positions of the players in a game of tag. It keeps
one table from client sockets to player records: position, server id, an
`active` flag and an `isIt` flag. It also keeps a dedup cache. For each
recipient and sender, the cache holds the last position forwarded from
that sender to that recipient.

The server handles four kinds of step:

- A joining client first receives a snapshot of the active players and of
  who is It. After that it is registered with the next server id. It is It
  when the table was empty.
- A position report stores the reported position and marks the player
  active. It is then forwarded to every other client whose cache entry for
  the sender differs from the new position.
- A disconnecting client's departure is announced to the others if the
  client was active. Then its entry is erased.
- Two background loops act on the table:
  - a proximity scanner hands It from the first It player found within
    3 units of a player who is not It;
  - a failsafe makes a randomly chosen player It when nobody is.

  Each tag is announced to every client. A client who is It receives the
  sentinel -1. Every other client receives the new tagger's id.

The model is a class, `GameServer.Server`. Its fields are:

- the table, as a sequence of `(socket, record)` with unique sockets, in
  one fixed iteration order (insertion order);
- the cache;
- the id counter;
- the scanner's sleep interval;
- an `outbox` sequence of `(recipient, message)` pairs that stands for
  everything sent.

Each step is one method, proved against functions in the `Registry`,
`Broadcast` and `Tagging` modules. Lemmas there state what each client
receives and which invariants hold. The invariants are:

- sockets are keys;
- server ids are distinct and below the counter;
- at most one player is It.

Some of the code's behaviour may not be what a reader expects. The model
follows the code in each case:

- server ids start at 0;
- erasing a player does not prune the cache;
- a joining client gets one tag notice per player who is It;
- a joining client gets positions only of active players, so a player who
  has not yet reported is omitted;
- a missing cache entry reads as the origin, so a player's first report of
  exactly (0, 0, 0) is forwarded to nobody (`Scenario.OriginReportSilent`).

## Model

| member | source | states |
|---|---|---|
| Registry.IndexOf | main.cpp:285 | the table lookup of a registered socket finds its entry, and no earlier entry has that socket |
| Registry.ItCountZero | main.cpp:218-226 | no player is It exactly when the It count is zero |
| Registry.ItCountOne | main.cpp:55-66 | when exactly one player is It, every other player is not |
| Registry.Emplaced | main.cpp:254 | after `emplace` the socket is always registered, whether it was new or already a key |
| Registry.JoinedItCount | main.cpp:250-254 | after a join the It count is 1 if the table was empty, else unchanged (so at most one It is kept) |
| Registry.JoinedWellFormed | main.cpp:248-254 | a join with the next id keeps sockets unique, ids distinct and below the advanced counter |
| Registry.MovedKeeps | main.cpp:285-290 | a received position is stored and the player made active; uniqueness and the It count are kept; no active player becomes inactive |
| Registry.RemovedMembers | main.cpp:321 | after `erase` the socket is unregistered, and an entry remains exactly when it was there and has another socket |
| Registry.RemovedAbsent | main.cpp:321 | erasing a socket that is not a key leaves the table as it was |
| Registry.RemovedItCount | main.cpp:318-322 | erasing a registered socket removes exactly one entry and lowers the It count by that entry's flag, so It is never handed on |
| Registry.RemovedWellFormed | main.cpp:321 | erasing keeps sockets unique and ids distinct and below the counter |
| Broadcast.MessagesToAppend | main.cpp:62-66 | what a recipient receives from two batches of sends is what it receives from each, in order |
| Broadcast.RefreshedAt | main.cpp:121-132 | after a position broadcast, every other registered client's entry for the sender equals the position; every other entry reads as before |
| Broadcast.PositionFanoutTo | main.cpp:121-135 | a client receives one update exactly when it is registered, is not the sender and its cache entry differs from the position, and nothing otherwise |
| Broadcast.FanoutSilent | main.cpp:125-128 | nothing is sent when every other client's entry already holds the position |
| Broadcast.DedupSecondSilent | main.cpp:105-137 | broadcasting the same record a second time, against the cache the first left, sends nothing |
| Broadcast.TagNoticesAt | main.cpp:52-68 | a tag broadcast sends exactly one notice per client, in table order, carrying -1 to a client who is It and the tagger's id otherwise |
| Broadcast.TagNoticesTo | main.cpp:52-68 | each registered client receives exactly one tag notice with its payload; an unregistered socket receives none |
| Broadcast.SentinelOnlyToNewIt | main.cpp:55-66 | with exactly one It player, only that player receives -1 and every other client receives its id |
| Broadcast.LeftFanoutTo | main.cpp:195-201 | every registered client other than the leaver receives exactly one leave notice with the leaver's id; the leaver receives none |
| Broadcast.AddressedTo | main.cpp:139-178 | the snapshot goes only to the joining client, in full and in order |
| Broadcast.PositionSnapshotMembers | main.cpp:142-159 | the snapshot's position updates are exactly those of the active players |
| Broadcast.PositionSnapshotOnce | main.cpp:142-159 | with distinct ids, each active player's update occurs exactly once |
| Broadcast.TagSnapshotSpec | main.cpp:161-177 | the snapshot carries one tag notice per It player, naming exactly the It players |
| Broadcast.SnapshotOmits | main.cpp:244-248 | the snapshot, taken before registration, never names the id the joiner is about to get |
| Tagging.FindTag | main.cpp:81-101 | the scan returns the first pair in scan order where the first is It, the second is not and they are within 3 units; when it finds none, no such pair exists |
| Tagging.HasTag | main.cpp:218-226 | the failsafe's search reports a player who is It exactly when there is one |
| Tagging.TagKeepsItCount | main.cpp:86-91 | a tag involves two different players, clears the tagger, sets the tagged player, and keeps the It count |
| Tagging.WithItWellFormed | main.cpp:90-91 | changing an It flag keeps sockets, ids and activity |
| Tagging.FailsafeMakesOneIt | main.cpp:228-232 | assigning It in a table without an It player leaves exactly one, the chosen player |
| Tagging.TwoPlayerTag | main.cpp:86 | with two players, one of them It, a tag is possible exactly when they are within 3 units |
| GameServer.Server.constructor | main.cpp:17-38 | the server starts with an empty table and cache, the counter at 0 and a first scan delay of 20 ms |
| GameServer.Server.BroadcastTag | main.cpp:42-69 | the outbox is extended by the tag notices for the current table, and nothing else changes |
| GameServer.Server.BroadcastPositionUpdate | main.cpp:105-137 | for an inactive sender nothing changes; otherwise the outbox is extended by the deduplicated updates and the cache refreshed |
| GameServer.Server.BroadcastCurrentState | main.cpp:139-178 | the joining client is sent the active players' updates, then one notice per It player |
| GameServer.Server.SendPositions | main.cpp:142-159 | the first loop sends the joining client the update of each active player, in table order |
| GameServer.Server.SendTags | main.cpp:161-177 | the second loop sends the joining client one notice per It player, in table order |
| GameServer.Server.BroadcastPlayerLeft | main.cpp:180-202 | for an active leaver every other client is sent a leave notice; nothing for an inactive one |
| GameServer.Server.Register | main.cpp:246-254 | the player is added with the old counter as id, the counter advances by one, and the invariants (at most one It) are kept |
| GameServer.Server.Join | main.cpp:244-254 | the snapshot of the old table goes to the joiner and never names the joiner, then the joiner is registered |
| GameServer.Server.ReceivePosition | main.cpp:283-293 | the position is stored, the player made active, and the update forwarded against the old cache; the invariants are kept |
| GameServer.Server.Disconnect | main.cpp:318-322 | the leave is announced if the leaver was active, the entry is erased, the It count drops by the leaver's flag, and the invariants are kept |
| GameServer.Server.ProximityScan | main.cpp:75-101 | the wait becomes 100 ms with no tag; with a tag, exactly the first qualifying pair swaps It, the tag is announced and the wait becomes 3000 ms, so only the new It receives -1 and every other client its id; the It count is kept |
| GameServer.Server.FailsafeTick | main.cpp:211-236 | with an empty table or someone It nothing changes; otherwise the chosen player becomes the only It and the tag is announced, so only that player receives -1 and every other client its id |
| Scenario.TwoPlayerJoin | main.cpp:244-254 | the first client joining an empty table gets id 0 and is It; the second gets id 1, and its snapshot is just "id 0 is It" |
| Scenario.OriginReportSilent | main.cpp:125-128 | a first report of exactly the origin is forwarded to nobody |
| Scenario.SecondMoveReachesFirst | main.cpp:105-137 | the second player's move to (1, 0, 0) reaches the first as an update carrying id 1 |

## Left out

- Sockets, `accept`, `recv`, `send`, `close` and `main` (main.cpp:327-380) are OS input and output. Sends become `outbox` entries, and each client event becomes a method call.
- Threads and the two mutexes are left out. Each method is one atomic step. The unlocked reads of the table in the scanner (main.cpp:78-81) and in the forward after a report (main.cpp:293) are not modelled.
- The sleeps (main.cpp:75, main.cpp:209) are not modelled as time. Only the scanner's stored interval is kept, and `ProximityScan` returns the interval it waited.
- JSON parsing and encoding (main.cpp:272-303) is a foreign library. `ReceivePosition` takes an already decoded triple. A frame without a position, or one that fails to parse, changes nothing. A position array that is shorter than three or holds a non-number is not modelled: by the library's documented behaviour its conversion to float throws `type_error`, which the `catch` of `parse_error` at main.cpp:300 does not catch, so the server would terminate.
- `glm::distance` and float equality are modelled on reals. The distance test is a comparison of the squared distance with 9. Float rounding is not modelled.
- `srand` and `rand` are left out. `FailsafeTick` takes the random number as a parameter and uses it modulo the table size, as the code does.
- Logging and the unused frame timing (main.cpp:257-265, main.cpp:315) are left out.
- GameServer.Server.ReceivePosition and GameServer.Server.Disconnect require the socket to be registered. The code indexes the table with `operator[]`, which would insert a record for a missing socket. In the code a client is always registered between its join and its erase.
- Registry.Emplaced: the model fixes the table's iteration order as insertion order, with a new key added last and no entry ever moved. `std::unordered_map` (main.cpp:37, main.cpp:254) leaves the position of a new key unspecified and may reorder every entry on a rehash. That order decides which pair the scan meets first, which player the failsafe picks, and the order of every broadcast. The lemmas hold for any order, but the server's registry follows this one.
- GameServer.Server.Register: the 32-bit width of `idIndex` (main.cpp:17, main.cpp:248) is not modelled. The counter is unbounded, so distinct ids below the counter are proved for any number of joins. In the code `idIndex++` overflows after 2^31 joins, which is undefined behaviour.
