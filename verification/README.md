# librats, verified

A Dafny model of the core of librats' BitTorrent engine and of the two stream buffers under it, with proofs of what
that core is for. Everything here is checked by the verifier.

The project follows the program's own parts.

- **Piece picker** (`PickerModel`, `PickSpec`, `PiecePicker`, `Sets`). The class keeps the rarest-first buckets with
  swap-removal and back-pointers, the separate seed counter, the sequential cursor, the counts and the block state
  machine, and changes them as the C++ does. It is proved to be the naive index in every state, and `pick_blocks` is
  proved sound, work-conserving and ordered in all three modes.
- **Swarm** (`SwarmModel`, `Swarm`). The torrent's event handlers drive the picker. After every run of events the
  connected peers are those that the events by themselves leave connected (`World`, `Next`), the availability of a piece
  is the number of them that hold it, and the pictures taken along the run (`Picture`, `Moves`) say what was had, wanted,
  written and hashed, and which blocks are on disk or on their way to it. Where a handler refills everybody, each peer is
  asked once, in some order, for a good pick from what the ones before it left (`RefilledEach`).
- **Connection byte path** (`Bytes`, `Bitfield`, `Wire`, `Framing`, `ReceiveBuffer`, `PeerConnection`,
  `ChainedSendBuffer`, `Link`). Receiving is independent of how the stream is cut into reads and bounded in memory, and
  the state of a connection is what the peer said. The send queue is a byte queue with exact accounting, a peer is dropped
  under an exact condition, and what one end sends the other end dispatches.
- **Bencode** (`Bencode`, `BencodeGrammar`, `BencodeParser`, `Dictionary`, `Scanners`, `Extensions`, `ResumeData`). The
  hardened parser computes a reading function that inverts the encoder and accepts exactly the texts of a grammar; the two
  hand-written scanners agree with it; metadata messages and resume records come back as they went in.
- **Files and disk** (`FileStorage`, `StoreBuffer`, `DiskModel`, `DiskIo`). Many files and the parked blocks behave as
  one flat array, and over any run of writes it is known exactly when readers see every accepted write.
- **Metadata** (`MetadataAssembly`). Slices from peers rebuild the info dictionary, under an exact condition.

State that the C++ changes in place is a class whose methods are proved against functions on values; the theorems are
about those functions and about the classes' invariants. A class invariant that every method keeps is what holds in
every reachable state.

Where the code and its promises part, the code is modelled and the exact condition is proved.

- A piece of 65536 blocks (piece length 2^30) never completes, because the counters have 16 bits:
  `PickerModel.FinishedCounter`, `PickerModel.LargestPieceNeverCompletes`.
- `mark_requested` keeps "requested means has requesters" exactly when the block was free or already requested:
  `PiecePicker.PiecePicker.MarkRequested`.
- `pick_blocks` is documented as a query, but it sets the end-game flag; the code is followed.
- The end-game is meant to start once every wanted piece is in progress. Its guard only counts entries, and stray entries,
  of pieces that are not wanted, count too: the guard is wrong exactly when they make up the number
  (`PiecePicker.PiecePicker.EndGameGuard`, `PiecePicker.StrayEntryStartsEndGame`). `on_piece` drops blocks of pieces we
  have so that no stale entry comes back, but a block taken earlier may land after its piece became ours, as a second copy
  or because a check of the files found the piece, and then it does (`Swarm.Torrent.SecondCopyLands`,
  `Swarm.Torrent.LandsAfterCheck`). That only wanted pieces are in progress, under which the guard is right, survives an
  event if and only if the event is not such a block landing (`Swarm.Torrent.Handle`, `SwarmModel.StrayIsLate`,
  `Swarm.Torrent.Run`).
- `piece_size` is right except for piece number 2^32 - 1: `FileStorage.PieceSizeExact`.
- A parked block is documented to be visible to reads before it is on disk; a read of it fails until its file exists,
  and the exact condition is the contract of `DiskIo.ThreadedDiskIo.ReadFiles`; see also
  `DiskIo.ThreadedDiskIo.ParkedButMissing`.
- A block parked for writing is documented to be what reads see. When a second version of a block is accepted while the
  first is in flight, the first one to land is seen until the other does
  (`DiskIo.ThreadedDiskIo.OlderVersionResurfaces`). Over any run without faults readers see every accepted write in every
  state exactly when every write that lands still stands (`DiskModel.SeenIffStanding`), which holds when every write
  agrees, as it is accepted, with the versions then in flight (`DiskModel.SettledIffAgreeing`,
  `DiskModel.AgreeingStands`).
- The first metadata size any peer names is kept for good, and a wrong slice makes the whole round fail. Two rounds of
  honest slices complete the download from any state exactly when the size is right
  (`MetadataAssembly.CompletesIffSizeIsRight`); one round is not enough after one wrong slice
  (`MetadataAssembly.OneLieCostsARound`).

`dafny verify dfyconfig.toml` checks the whole project.

## Model

| member | source | states |
|---|---|---|
| `PickerModel.OffsetInPiece` | src/librats/bittorrent/piece_picker.cpp:27-36 | an offset inside a piece falls in one of its blocks |
| `PickerModel.BlocksTileThePiece` | src/librats/bittorrent/piece_picker.cpp:27-42 | block k starts where the blocks before it end, no block is empty, and together they are exactly the piece |
| `PickerModel.PiecesTileThePayload` | src/librats/bittorrent/piece_picker.cpp:27-42 | the pieces before piece k take exactly k piece lengths, none is empty or longer than the piece length, and all of them together are the payload |
| `SwarmModel.SamePieceSize` | src/librats/bittorrent/torrent.cpp:345-356 | the picker's size of a piece is the file layout's, for every piece of every payload whose pieces can be counted |
| `PickerModel.SetBlockCounts` | src/librats/bittorrent/piece_picker.cpp:113-162 | changing one block, with the 16-bit counters adjusted, keeps each counter equal to the number of blocks in its state modulo 2^16; the requester invariant is kept iff the new block has requesters exactly when Requested, without repeats |
| `PickerModel.FinishedCounter` | src/librats/bittorrent/piece_picker.cpp:143-151 | the finished counter equals the block count iff all blocks are Finished and there are fewer than 65536 |
| `PickerModel.LargestPieceNeverCompletes` | src/librats/bittorrent/piece_picker.cpp:143-151 | with piece length 2^30 a piece has 65536 blocks and the counter misses completion even when all are Finished |
| `PickerModel.WithoutMembers` | src/librats/bittorrent/piece_picker.cpp:153-174 | erasing a peer from a duplicate-free requester list removes it and nothing else, and shortens the list by one |
| `PickerModel.DropPeerExact` | src/librats/bittorrent/piece_picker.cpp:164-174 | dropping a peer leaves no trace of it, frees the block exactly when it was the sole requester, and keeps every other block as it is |
| `PickerModel.DroppedEverywhere` | src/librats/bittorrent/piece_picker.cpp:164-174 | after a cancel, no requester set in the whole table names the peer |
| `PickerModel.OneMoreDropped` | src/librats/bittorrent/piece_picker.cpp:164-174 | dropping peers one after the other is dropping them together: every other requester is kept |
| `PickerModel.IndexIsNaive` | src/librats/bittorrent/piece_picker.h:154-197 | under the slot invariant each bucket holds, once each, exactly the wanted pieces with its priority and availability, and keys beyond the columns have no pieces |
| `PickerModel.SwapRemoveKeepsIndex` | src/librats/bittorrent/piece_picker.cpp:216-227 | moving the last piece into the hole and fixing its back-pointer keeps every other piece filed in its bucket at its recorded slot |
| `PickerModel.AppendKeepsIndex` | src/librats/bittorrent/piece_picker.cpp:205-214 | appending a piece to the bucket of its key, growing the column if needed, files it there and disturbs nothing |
| `PickerModel.RekeyKeepsIndex` | src/librats/bittorrent/piece_picker.cpp:68-82 | the key of a piece that is out of the index may change without touching the index |
| `PickerModel.CountsUpdate` | src/librats/bittorrent/piece_picker.cpp:46-82 | the pieces-left and have counters, adjusted by one piece, equal the sizes of the wanted set and of the have set |
| `PickerModel.AllInProgress` | src/librats/bittorrent/piece_picker.cpp:327-331 | every wanted piece is in progress iff the wanted pieces and the strays together are no more than the pieces in progress |
| `PickSpec.TakeKeepsBuilding` | src/librats/bittorrent/piece_picker.cpp:195-203 | taking the free blocks of a piece keeps the answer distinct, within the count and greedy, if every better piece was covered before |
| `PickSpec.RotationVisitsAll` | src/librats/bittorrent/piece_picker.cpp:317-320 | walking a bucket from any start with (start + k) mod n visits each slot exactly once |
| `PickSpec.FreePickIsGood` | src/librats/bittorrent/piece_picker.cpp:325-331 | an answer of free blocks that is full, or covers all free blocks with nothing to duplicate, meets the contract of pick_blocks |
| `PickSpec.BusyPickIsGood` | src/librats/bittorrent/piece_picker.cpp:327-349 | adding one busy block to a covering answer near completion meets the contract of pick_blocks |
| `PickSpec.RarestFirstOrder` | src/librats/bittorrent/piece_picker.cpp:249-323 | when a good answer contains a block of a new piece, every free block of the pieces in progress and of every unstarted piece of better priority or smaller effective availability comes before it |
| `PickSpec.RarerMeans` | src/librats/bittorrent/piece_picker.h:154-197 | high priority comes before normal, and within a priority the piece fewer peers hold comes first |
| `PickSpec.SequentialOrder` | src/librats/bittorrent/piece_picker.cpp:257-286 | in sequential mode free blocks come in ascending piece and block order, within started and within new pieces |
| `PickSpec.SeedsKeepTheOrder` | src/librats/bittorrent/piece_picker.cpp:94-101 | a good answer stays good for any value of the seed counter |
| `PickSpec.EndGameTooEarly` | src/librats/bittorrent/piece_picker.cpp:327-349 | with one stray entry, a good answer may duplicate a request while a wanted piece has not been started |
| `PiecePicker.PiecePicker.constructor` | src/librats/bittorrent/piece_picker.cpp:9-23 | all pieces wanted and unavailable; index, counts and cursor agree with their naive meanings |
| `PiecePicker.PiecePicker.OrderInsert` | src/librats/bittorrent/piece_picker.cpp:205-214 | the piece is filed iff wanted, and the index stays the naive one |
| `PiecePicker.PiecePicker.OrderRemove` | src/librats/bittorrent/piece_picker.cpp:216-227 | the piece leaves the index and the rest of it stays the naive one |
| `PiecePicker.PiecePicker.AvailAdd` | src/librats/bittorrent/piece_picker.cpp:229-241 | availability changes by one, clamped at 0, with the piece moved to its new bucket |
| `PiecePicker.PiecePicker.WeHave` | src/librats/bittorrent/piece_picker.cpp:46-55 | the piece becomes had and leaves the table of pieces in progress; counts, cursor and index stay exact, and if only wanted pieces were in progress it stays so |
| `PiecePicker.PiecePicker.SetHaveBitfield` | src/librats/bittorrent/piece_picker.cpp:61-66 | the had pieces become the union with the bitfield, and exactly the newly had ones leave the table; only wanted pieces in progress stays so |
| `PiecePicker.PiecePicker.SetPiecePriority` | src/librats/bittorrent/piece_picker.cpp:68-82 | the priority changes, with counts and index exact, and the piece leaves the table exactly when it is no longer wanted; only wanted pieces in progress stays so |
| `PiecePicker.PiecePicker.IncAvailability` | src/librats/bittorrent/piece_picker.cpp:86-89 | each piece the bitfield holds gains one, the others none |
| `PiecePicker.PiecePicker.DecAvailability` | src/librats/bittorrent/piece_picker.cpp:90-93 | each piece the bitfield holds loses one down to 0, the others none |
| `PiecePicker.PiecePicker.MarkRequested` | src/librats/bittorrent/piece_picker.cpp:113-122 | the requester is added once and only this block changes; the requester invariant survives iff the block was free or Requested, and that only wanted pieces are in progress survives iff this piece is wanted |
| `PiecePicker.PiecePicker.MarkWriting` | src/librats/bittorrent/piece_picker.cpp:124-141 | a Requested block becomes Writing and the other requesters are returned; in any other state nothing changes |
| `PiecePicker.PiecePicker.MarkFinished` | src/librats/bittorrent/piece_picker.cpp:143-151 | the block becomes Finished, and the result is true iff all blocks of the piece are Finished and there are fewer than 65536; that only wanted pieces are in progress survives iff this piece is wanted |
| `PiecePicker.PiecePicker.AbortBlock` | src/librats/bittorrent/piece_picker.cpp:153-162 | the peer leaves the block, which becomes free iff it was its sole requester; nothing else changes |
| `PiecePicker.PiecePicker.CancelPeer` | src/librats/bittorrent/piece_picker.cpp:164-174 | no block names the peer afterwards, exactly its sole-requester blocks become free, and the counters stay exact |
| `PiecePicker.PiecePicker.RestorePiece` | src/librats/bittorrent/piece_picker.cpp:176-178 | the piece leaves the table of pieces in progress and everything else stays |
| `PiecePicker.PiecePicker.IsInteresting` | src/librats/bittorrent/piece_picker.cpp:187-193 | true iff the peer holds a piece we want |
| `PiecePicker.PiecePicker.AppendFreeBlocks` | src/librats/bittorrent/piece_picker.cpp:195-203 | the free blocks of the piece are appended in ascending order up to the count |
| `PiecePicker.PiecePicker.StartSequential` | src/librats/bittorrent/piece_picker.cpp:280-286 | starting at the cursor misses no free block: an answer that is not full covers all of them |
| `PiecePicker.PiecePicker.StartRarest` | src/librats/bittorrent/piece_picker.cpp:306-323 | visiting buckets best-first keeps the answer greedy, and if it is not full it covers every free block |
| `PiecePicker.PiecePicker.StartRandom` | src/librats/bittorrent/piece_picker.cpp:287-305 | any shuffle and any entry points cover every free block unless the answer is full |
| `PiecePicker.PiecePicker.FindBusy` | src/librats/bittorrent/piece_picker.cpp:335-348 | finds a block requested by others but not by this peer that the peer could serve, or none exists |
| `PiecePicker.PiecePicker.PickBlocks` | src/librats/bittorrent/piece_picker.cpp:243-350 | at most count distinct blocks of wanted pieces the peer holds; greedy in the order of the mode; if fewer, every free block is included; at most one busy block, last, never one this peer requested, only when as many pieces are in progress as are wanted; then every wanted piece is in progress iff the strays do not make up that number, so always if only wanted pieces are in progress |
| `PiecePicker.PiecePicker.EndGameGuard` | src/librats/bittorrent/piece_picker.cpp:327-331 | in every state the guard of the end-game agrees with every wanted piece being in progress, except exactly when stray entries make up the number |
| `PiecePicker.StrayEntryStartsEndGame` | src/librats/bittorrent/piece_picker.cpp:46-151 | a run that gets there: a block of a piece we have is marked finished late, and the end-game starts with a wanted piece not started |
| `PiecePicker.PiecePicker.PicksAreRequestable` | src/librats/bittorrent/piece_picker.cpp:243-350 | every block of a good answer exists and may be marked as requested without breaking the requester invariant |
| `SwarmModel.HaveCounts` | src/librats/bittorrent/peer_connection.cpp:305-320 | a HAVE for a piece not held before adds one holder to that piece and none elsewhere |
| `SwarmModel.BitfieldCounts` | src/librats/bittorrent/torrent.cpp:268-281 | a first bitfield adds one holder to each piece it has |
| `SwarmModel.SeedCounts` | src/librats/bittorrent/torrent.cpp:268-281 | a peer counted as a seed changes no per-piece count |
| `SwarmModel.LeaveCounts` | src/librats/bittorrent/torrent.cpp:565-583 | a leaving peer takes one from each piece it held, or one seed |
| `SwarmModel.AdoptCounts` | src/librats/bittorrent/torrent.cpp:703-713 | adopting the bitfield of a peer known before the metadata adds its holdings exactly |
| `SwarmModel.ReviewedRight` | src/librats/bittorrent/torrent.cpp:308-340 | when every peer was looked at and refilled in turn, we are interested in exactly those that hold a piece we want, and no connection changed otherwise |
| `SwarmModel.ReactionProgress` | src/librats/bittorrent/torrent.cpp:246-394 | whatever message a peer sends, no block becomes finished or is lost on its way to disk, and exactly an accepted block that was requested sets out |
| `SwarmModel.TidyUntilStray` | src/librats/bittorrent/torrent.cpp:342-441 | along any trace of events, only wanted pieces are in progress until the first block of an unwanted piece lands, and that one ends it |
| `SwarmModel.StrayIsLate` | src/librats/bittorrent/torrent.cpp:342-441 | along any trace from normal priorities, the landing blocks of unwanted pieces are exactly those whose piece we have by then |
| `SwarmModel.TraceWorld` | src/librats/bittorrent/torrent.cpp:246-583 | along any trace of events the swarm is what the events by themselves make of it |
| `Swarm.Torrent.AvailabilityIsExact` | src/librats/bittorrent/piece_picker.cpp:94-101 | per-piece count plus seed counter is the number of connected peers whose bitfield holds the piece |
| `Swarm.Torrent.ClampsNeverFire` | src/librats/bittorrent/piece_picker.cpp:229-241 | a counter about to be decremented for a leaving peer is positive |
| `Swarm.Torrent.WithMetadata` | src/librats/bittorrent/torrent.cpp:35-67 | a torrent with metadata starts with exactly the pieces the metadata gives, exact counts, no peers and nothing in progress |
| `Swarm.Torrent.OnHandshake` | src/librats/bittorrent/torrent.cpp:246-266 | a peer is taken in unless paused or full, and counts stay exact |
| `Swarm.Torrent.OnBitfield` | src/librats/bittorrent/torrent.cpp:268-281 | the peer joins the seeds iff its first bitfield is full, otherwise it is counted piece by piece; we are interested iff it holds a piece we want; it is refilled, and nobody else changes |
| `Swarm.Torrent.OnHave` | src/librats/bittorrent/torrent.cpp:283-291 | a HAVE that flipped a bit is counted once for its piece; we become interested iff we want it and stay interested otherwise; the peer is refilled, and nobody else changes |
| `Swarm.Torrent.OnChoke` | src/librats/bittorrent/torrent.cpp:293-302 | a choke frees exactly the blocks only this peer was asked for and drops it from the others, with no request outstanding; an unchoke refills it |
| `Swarm.Torrent.Refill` | src/librats/bittorrent/torrent.cpp:315-340 | an unchoked peer that interests us, with room in its pipeline and the disk not behind, is asked for exactly a good pick of that many blocks, and the table records exactly those requests; any other peer for nothing |
| `Swarm.Torrent.UpdateInterest` | src/librats/bittorrent/torrent.cpp:308-313 | we are interested iff the peer holds a piece we want, and then it is refilled |
| `Swarm.Torrent.ResumeRequests` | src/librats/bittorrent/torrent.cpp:442-451 | once the disk has caught up every peer is refilled once, one after the other in some order, and the stall flag is cleared; otherwise nothing changes |
| `Swarm.Torrent.OnPiece` | src/librats/bittorrent/torrent.cpp:342-394 | a block that is not block-aligned, inside its piece and of exactly the block's size changes nothing; any other frees a slot of the sender, goes to disk iff we do not have the piece, is Writing iff it was Requested, and exactly the other peers asked for it are told to cancel and get a slot back; then the sender is refilled |
| `Swarm.Torrent.Stall` | src/librats/bittorrent/torrent.cpp:396-428 | exactly the late peers with requests outstanding are dropped from all requesters, which frees exactly the blocks only they were asked for; if there are any, every other peer is refilled once |
| `Swarm.Torrent.OnBlockWritten` | src/librats/bittorrent/torrent.cpp:430-438 | a failed write forgets the piece's progress; a successful one finishes its block and starts the hash iff all blocks are then finished and fewer than 65536 |
| `Swarm.Torrent.OnPieceHashed` | src/librats/bittorrent/torrent.cpp:459-492 | on a match the piece becomes had and leaves the table unless we had it already, and nothing else does; we are interested in exactly the peers that hold a piece we want, and every peer is refilled once, one after the other, each by a good pick from what the ones before it left; on a mismatch its progress is forgotten and nothing else changes |
| `Swarm.Torrent.OnCheckComplete` | src/librats/bittorrent/torrent.cpp:91-140 | the had pieces become the union with the checked ones, and exactly the newly found pieces leave the table; we are interested in exactly the peers that hold a piece we want, and every peer is refilled once, one after the other |
| `Swarm.Torrent.RemovePeer` | src/librats/bittorrent/torrent.cpp:565-583 | the peer disappears from connections, seeds, requesters and counts, and only it: exactly the blocks only it was asked for are free |
| `Swarm.Torrent.Promote` | src/librats/bittorrent/torrent.cpp:703-716 | the picker created on late metadata has the pieces the metadata gives and starts empty; every peer connected before is counted once, one after the other, and then asked for a good pick by the counts of those adopted until then |
| `Swarm.Torrent.Receive` | src/librats/bittorrent/peer_connection.cpp:281-364 | each wire message changes the connection as dispatch does, the counts accordingly, and the seeds, the table and the requests as its handler says; it puts a block on its way to disk iff it is an acceptable piece; a malformed one removes the peer, and nothing else does |
| `Swarm.Torrent.Land` | src/librats/bittorrent/torrent.cpp:430-457 | a finished write, as the event says; an unwanted piece comes into progress iff its block is the one that landed; a good write that lets a stalled torrent go on refills every peer once, from the table with that block finished |
| `Swarm.Torrent.SecondCopyLands` | src/librats/bittorrent/torrent.cpp:342-492 | two copies of the only block of a wanted piece are taken; when the second lands after the piece passed its check, the had piece is in progress again |
| `Swarm.Torrent.LandsAfterCheck` | src/librats/bittorrent/torrent.cpp:91-394 | a block taken while its piece was missing lands after the check of the files found the piece, and the had piece is in progress again |
| `Swarm.Torrent.Handle` | src/librats/bittorrent/torrent.cpp:246-583 | every event does to the swarm, the geometry, the pieces had and wanted, the blocks on disk and on their way to it, and the writes and hashes in flight what it says by itself; that only wanted pieces are in progress survives it iff it is not a landing block of an unwanted piece |
| `Swarm.Torrent.Run` | src/librats/bittorrent/torrent.cpp:246-583 | after any sequence of events, in any order, the connected peers are those the events leave connected, the availability of every piece is the number of them whose bitfield holds it, the picker's invariants hold, only connected peers are waited for, if no block of an unwanted piece landed only wanted pieces are in progress, and the blocks of unwanted pieces that landed are exactly those whose piece we had by then |
| `Bitfield.FromToWire` | src/librats/bittorrent/bitfield.h:42-49 | packing bits and reading them back gives the same bits |
| `Bitfield.ToFromWire` | src/librats/bittorrent/bitfield.cpp:44-56 | bytes with zero spare bits are determined by their bits |
| `Bitfield.BitAt` | src/librats/bittorrent/bitfield.h:42-49 | bit k of a byte is the k-th from the top |
| `Bytes.BigEndian32` | src/librats/bittorrent/byte_io.h:23-38 | four bytes stand for the number with the first one heaviest, read and written |
| `Bytes.BigEndian16` | src/librats/bittorrent/byte_io.h:20-33 | the same for two bytes |
| `Bitfield.SetBit` | src/librats/bittorrent/bitfield.h:42-49 | or-ing in the mask sets that bit of the byte and no other |
| `Bitfield.KeepTop` | src/librats/bittorrent/bitfield.cpp:51-56 | shifting the low bits out and zeros in keeps the upper bits and clears the lower ones |
| `Bitfield.Bitfield.Assign` | src/librats/bittorrent/bitfield.cpp:44-49 | the first n bits of the data are kept and the spare bits are cleared |
| `Bitfield.Bitfield.Resize` | src/librats/bittorrent/bitfield.cpp:27-42 | kept bits are unchanged, new bits have the value, spare bits are zero |
| `Bitfield.Bitfield.ClearTrailingBits` | src/librats/bittorrent/bitfield.cpp:51-56 | clears the spare bits and no other |
| `Bitfield.Bitfield.Count` | src/librats/bittorrent/bitfield.cpp:58-64 | summing byte popcounts counts the set bits |
| `Bitfield.Bitfield.FindFirstUnset` | src/librats/bittorrent/bitfield.cpp:84-95 | the first bit that is 0, or the size |
| `Wire.DispatchInvertsPayload` | src/librats/bittorrent/peer_connection.cpp:281-364 | dispatching the payload of a sent message has the effect of that message |
| `Wire.DispatchShapes` | src/librats/bittorrent/peer_connection.cpp:281-364 | whatever the bytes, dispatch closes without reporting, or reports at most one event; a HAVE is reported only when it flips a bit, a bitfield only first and with the known size, and nothing else changes the bitfield |
| `Wire.DispatchCloses` | src/librats/bittorrent/peer_connection.cpp:281-364 | whatever the bytes, dispatch closes iff the length is wrong for the id or a bitfield comes late or in the wrong size; an unknown id changes and reports nothing |
| `Wire.DispatchIsReceive` | src/librats/bittorrent/peer_connection.cpp:281-364 | any other payload is that of exactly one message, and dispatch is the effect of that message |
| `Wire.ReportsOnce` | src/librats/bittorrent/peer_connection.cpp:281-364 | a message is reported once and as it was sent, but for keep-alives, announcements already known or out of range and refused bitfields, which are not reported |
| `Wire.HistoryIsState` | src/librats/bittorrent/peer_connection.cpp:281-364 | after any messages that leave the connection open, the peer chokes us unless its last word was an unchoke, is interested iff that was its last word, and holds exactly the pieces its first bitfield and its announcements named |
| `Wire.LastWordCounts` | src/librats/bittorrent/peer_connection.cpp:281-304 | for any messages from any state, choking and interest are what the last message about them said |
| `Wire.ShortMessages` | src/librats/bittorrent/peer_connection.cpp:368-441 | the bytes on the wire of keep-alive, choke, unchoke, interested and not interested |
| `Wire.PieceMessages` | src/librats/bittorrent/peer_connection.cpp:368-441 | those of have and bitfield |
| `Wire.RequestMessages` | src/librats/bittorrent/peer_connection.cpp:368-441 | those of request and cancel |
| `Wire.BlockMessage` | src/librats/bittorrent/peer_connection.cpp:368-441 | those of a block |
| `Wire.OtherMessages` | src/librats/bittorrent/peer_connection.cpp:368-441 | those of port and extended messages |
| `Wire.BlocksAreSendable` | src/librats/bittorrent/peer_connection.cpp:21-32 | blocks up to 1 MiB and bitfields of sixteen million pieces are within the message limit of 2 MiB, which larger ones are not |
| `Framing.ParseSplit` | src/librats/bittorrent/peer_connection.cpp:214-238 | parsing a stream equals parsing a prefix and then the rest with what was left over |
| `Framing.ChunkingIrrelevant` | src/librats/bittorrent/peer_connection.cpp:166-238 | for any split of a stream into reads, the session state, the dispatched messages, the closed flag and the leftover bytes are those of parsing it at once |
| `Framing.LateBytesIgnored` | src/librats/bittorrent/peer_connection.cpp:214-238 | after a close further bytes change nothing |
| `Framing.SentIsParsed` | src/librats/bittorrent/peer_connection.cpp:222-238 | any sequence of sendable messages is parsed as that sequence, up to a close, with nothing left over |
| `Framing.ConformingIsDelivered` | src/librats/bittorrent/peer_connection.cpp:281-364 | messages that conform to the protocol are all delivered without a close |
| `Framing.HandshakeInverts` | src/librats/bittorrent/peer_connection.cpp:115-135 | the handshake that is sent is accepted as what it says |
| `Framing.HandshakeExact` | src/librats/bittorrent/peer_connection.cpp:240-279 | a handshake is taken iff it starts with the byte 19 and the protocol name and asks for our torrent, or for one of ours; then it gives the torrent and the peer id, otherwise the connection closes and nothing else changes |
| `Framing.GreetedIsFresh` | src/librats/bittorrent/peer_connection.cpp:240-279 | an accepted handshake leaves an incoming and an outgoing connection alike: the torrent's piece count, choked, and nothing held |
| `Framing.TurnDecides` | src/librats/bittorrent/peer_connection.cpp:222-238 | with four bytes there, the connection closes iff the length is above 2 MiB or the whole message is there and malformed, waits iff it is not there yet, and otherwise takes exactly the message |
| `Framing.SessionReflects` | src/librats/bittorrent/peer_connection.cpp:214-364 | a session that delivered any messages and is open knows of its peer exactly what they said |
| `Framing.SentIsReceived` | src/librats/bittorrent/peer_connection.cpp:115-461 | handshake and messages, received in any chunks, give the session of delivering exactly those messages |
| `ReceiveBuffer.RoundUp` | src/librats/core/receive_buffer.cpp:20-24 | the next multiple of 256, at most 255 above |
| `ReceiveBuffer.AverageBetween` | src/librats/core/receive_buffer.cpp:188-194 | the average lies between the old watermark and the peak |
| `ReceiveBuffer.AverageWeight` | src/librats/core/receive_buffer.cpp:188-194 | the average is 15/16 of the old watermark and 1/16 of the peak, rounded up |
| `ReceiveBuffer.GrowthRemembers` | src/librats/core/receive_buffer.cpp:48-97 | a prepare grows the buffer iff the live bytes and the demand do not fit together, then by at least half, and what was demanded is remembered as the watermark |
| `ReceiveBuffer.ShrinksByHalf` | src/librats/core/receive_buffer.cpp:196-217 | the buffer shrinks only above 1 KiB and when the watermark is below half of it, never below the live bytes or the watermark, and it does shrink when it is well above both |
| `ReceiveBuffer.TickAfterTraffic` | src/librats/core/receive_buffer.cpp:140-176 | the first tick after received bytes only notes them |
| `ReceiveBuffer.IdleConverges` | src/librats/core/receive_buffer.cpp:140-176 | after logarithmically many idle ticks the live bytes are the same and the capacity is at most 1024 or less than twice the live bytes |
| `ReceiveBuffer.SettledStays` | src/librats/core/receive_buffer.cpp:140-176 | a settled buffer is left alone by further ticks |
| `ReceiveBuffer.TrafficNeverShrinksBelow` | src/librats/core/receive_buffer.cpp:48-217 | in any run of prepares of at least c, commits and non-empty consumes without an idle tick, a capacity that covers c with a watermark of c never falls below c |
| `ReceiveBuffer.PrepareBounded` | src/librats/core/receive_buffer.cpp:48-97 | a prepare that keeps live plus demand within a limit keeps the capacity within 1.5 times the limit rounded up, or where it was |
| `ReceiveBuffer.ReceiveBuffer.Compact` | src/librats/core/receive_buffer.cpp:130-138 | moving the live bytes to the front in place keeps them |
| `ReceiveBuffer.ReceiveBuffer.Reallocate` | src/librats/core/receive_buffer.cpp:99-114 | the live bytes survive a move to a new array |
| `ReceiveBuffer.ReceiveBuffer.Prepare` | src/librats/core/receive_buffer.cpp:48-61 | live bytes kept, at least the room asked for, and the gauge follows the specified policy |
| `ReceiveBuffer.ReceiveBuffer.Commit` | src/librats/core/receive_buffer.cpp:63-68 | the received bytes are appended to the live bytes |
| `ReceiveBuffer.ReceiveBuffer.Consume` | src/librats/core/receive_buffer.cpp:116-128 | exactly the given number of bytes leaves the front, through rewinding and shrinking |
| `ReceiveBuffer.ReceiveBuffer.Decay` | src/librats/core/receive_buffer.cpp:140-176 | the live bytes are kept and the gauge follows the decay policy |
| `PeerConnection.PeerConnection.Dispatch` | src/librats/bittorrent/peer_connection.cpp:281-364 | the switch over message ids computes the dispatch function, which closes exactly on malformed lengths and late bitfields (DispatchCloses) and otherwise is the effect of a message (DispatchIsReceive) |
| `PeerConnection.PeerConnection.CheckHandshake` | src/librats/bittorrent/peer_connection.cpp:240-279 | header, info-hash, late binding and refusal as the handshake function says |
| `PeerConnection.PeerConnection.ParseAll` | src/librats/bittorrent/peer_connection.cpp:214-238 | the loop over the buffer computes the parse function, and asks for no more than one whole message |
| `PeerConnection.PeerConnection.ReadSize` | src/librats/bittorrent/peer_connection.cpp:197-212 | while waiting, a positive demand that keeps live plus demand within one message; for a message under way its rest, cut at 1 MiB, otherwise 64 KiB |
| `PeerConnection.PeerConnection.ReadOnce` | src/librats/bittorrent/peer_connection.cpp:166-195 | one read, commit and parse keeps the connection equal to parsing the whole stream so far |
| `PeerConnection.PeerConnection.Silence` | src/librats/bittorrent/peer_connection.cpp:477-500 | a peer that falls silent gives its memory back: after logarithmically many ticks the buffer is at its floor of 1 KiB or more than half full, with every received byte still there |
| `PeerConnection.PeerConnection.TickAndRead` | src/librats/bittorrent/peer_connection.cpp:477-500 | idle ticks between reads change nothing of that |
| `PeerConnection.PeerConnection.ReceiveStream` | src/librats/bittorrent/peer_connection.cpp:166-238 | over every run of reads of any sizes and idle ticks the session is that of parsing the stream at once, and the receive allocation stays within 1.5 x (4 + 2 MiB) rounded up to 256 |
| `ChainedSendBuffer.ChainedSendBuffer.AppendOwned` | src/librats/core/chained_send_buffer.cpp:25-31 | the buffer joins the end of the chain and nothing else changes |
| `ChainedSendBuffer.ChainedSendBuffer.AppendCopy` | src/librats/core/chained_send_buffer.cpp:33-48 | the bytes join the tail if they fit its reservation, otherwise a chunk of their own, which is the recycled one iff that is large enough and else has their size and at least 1 KiB; the chain and the recycled capacity are exactly that |
| `ChainedSendBuffer.ChainedSendBuffer.TakeChunk` | src/librats/core/chained_send_buffer.cpp:56-69 | the recycled buffer iff it is large enough, otherwise a new one and the recycled one stays |
| `ChainedSendBuffer.ChainedSendBuffer.Gather` | src/librats/core/chained_send_buffer.cpp:91-106 | the slices concatenate to a prefix of the queue, not empty if the queue is not and a slice is allowed, and stop only at a limit or the end |
| `ChainedSendBuffer.ChainedSendBuffer.PopFront` | src/librats/core/chained_send_buffer.cpp:114-134 | exactly the given number of bytes leaves the front; the chain left and the capacity kept for reuse are exactly those of the popping function, whatever was swept on the way |
| `ChainedSendBuffer.CopiedContents` | src/librats/core/chained_send_buffer.cpp:33-69 | copying in appends the bytes; memory is taken iff they fit neither the tail nor the recycled chunk, and then exactly one chunk |
| `ChainedSendBuffer.PoppedTwice` | src/librats/core/chained_send_buffer.cpp:114-134 | popping in two steps is popping once: how the socket cuts the stream does not matter |
| `ChainedSendBuffer.PoppedAll` | src/librats/core/chained_send_buffer.cpp:71-134 | popping everything leaves an empty chain and at most 4 KiB for reuse |
| `ChainedSendBuffer.SteadyDrip` | src/librats/core/chained_send_buffer.cpp:33-89 | small messages sent and flushed one by one take no memory after the first: they use one chunk of 1 KiB over and over |
| `ChainedSendBuffer.ChainedSendBuffer.ReclaimDrainedSlots` | src/librats/core/chained_send_buffer.cpp:136-159 | sweeping drained slots keeps the contents and restores the slot invariant |
| `ChainedSendBuffer.ChainedSendBuffer.Clear` | src/librats/core/chained_send_buffer.cpp:161-170 | empty, and no memory held; the totals of queued and moved chunks go on |
| `ChainedSendBuffer.ChainedSendBuffer.EmptyKeepsLittle` | src/librats/core/chained_send_buffer.cpp:71-89 | an empty queue holds at most 4 KiB |
| `ChainedSendBuffer.ChainedSendBuffer.AmortisedMoves` | src/librats/core/chained_send_buffer.cpp:136-159 | over any run, clears included, the chunks moved by sweeping are at most the chunks ever queued |
| `Link.HeaderAndBody` | src/librats/bittorrent/peer_connection.cpp:368-441 | header and body as the send functions queue them are the encoding of the message |
| `Link.RoomKeepsOpen` | src/librats/bittorrent/peer_connection.cpp:443-469 | a peer whose socket takes the whole queue is not dropped |
| `Link.Sender.QueueMessage` | src/librats/bittorrent/peer_connection.cpp:368-441 | each send adds exactly the encoding of its message to the stream, the body of a block as an owned buffer and everything else copied |
| `Link.Sender.Flush` | src/librats/bittorrent/peer_connection.cpp:443-469 | exactly as many bytes as the socket has room for leave the front of the queue, in order; the peer is dropped iff the send fails before the queue is out or the memory still held is past the high-water mark; otherwise the rest is still queued |
| `Link.Link.Flush` | src/librats/bittorrent/peer_connection.cpp:443-469 | the bytes the socket takes join the wire behind those already on it, and the sender is dropped iff the send fails early or the held memory is past the high-water mark |
| `Link.Link.Send` | src/librats/bittorrent/peer_connection.cpp:368-469 | a message joins the messages sent, and the sender is dropped iff a flush of the queue with it drops it |
| `Link.Link.Drain` | src/librats/bittorrent/peer_connection.cpp:166-469 | from any open state, with room in the socket, everything sent is received, unless the receiver hangs up |
| `Link.Link.Exchange` | src/librats/bittorrent/peer_connection.cpp:115-469 | any conforming messages, sent over sockets with room, are all dispatched in order, and both ends stay open |
| `Link.Link.Read` | src/librats/bittorrent/peer_connection.cpp:166-195 | a read takes at least one byte off the wire and what it takes joins the received stream |
| `Link.Link.ReceivedIsSent` | src/librats/bittorrent/peer_connection.cpp:166-469 | in every state of a link the received stream is a prefix of the sent one and the receiver is in the session of parsing it; once drained, it has delivered exactly the messages sent |
| `Link.Link.AllMessagesArrive` | src/librats/bittorrent/peer_connection.cpp:166-469 | on a drained link conforming messages have all been dispatched, in order |
| `Bencode.RoundTrip` | src/librats/bittorrent/bencode.cpp:204-386 | every value with sorted unique keys, int64 integers and nesting within the limit parses back from its encoding, wherever it stands and whatever follows, and parsing stops where it ends |
| `Bencode.DecodeEncode` | src/librats/bittorrent/bencode.cpp:389-396 | decoding an encoding gives the value |
| `Bencode.Numbers` | src/librats/bittorrent/bencode.cpp:204-244 | the encodings of 3, -3 and 120 |
| `Bencode.Strings` | src/librats/bittorrent/bencode.cpp:204-244 | the encodings of some strings |
| `Bencode.LessIsBefore` | src/librats/bittorrent/bencode.cpp:373-381 | keys are compared as byte strings, a prefix first |
| `BencodeGrammar.LegalIsAccepted` | src/librats/bittorrent/bencode.cpp:262-386 | every legal text, given by a grammar with any key order, any leading zeros in lengths, int64 integers, nesting up to 100 and no key twice, is accepted wherever it stands, with its meaning and its end |
| `BencodeGrammar.AcceptedIsLegal` | src/librats/bittorrent/bencode.cpp:262-386 | whatever the parser accepts is a legal text and its value is the meaning of that text |
| `BencodeGrammar.DecodeExact` | src/librats/bittorrent/bencode.cpp:389-396 | a buffer decodes iff it is a legal text |
| `BencodeGrammar.AnyKeyOrder` | src/librats/bittorrent/bencode.cpp:360-382 | a dictionary with its keys in any order is accepted if no key repeats, with ascending keys and exactly the entries written, and refused if one does |
| `BencodeGrammar.SortedAscendsIff` | src/librats/bittorrent/bencode.cpp:373-381 | sorted entries ascend strictly iff no key occurs twice |
| `Bencode.ParseGood` | src/librats/bittorrent/bencode.cpp:262-386 | whatever the bytes, an accepted value has ascending unique keys, int64 integers and nesting within the limit |
| `Bencode.DecodedIsStable` | src/librats/bittorrent/bencode.cpp:389-396 | whatever decodes, decodes again to the same value from its canonical encoding |
| `Bencode.SelfDelimiting` | src/librats/bittorrent/bencode.cpp:262-386 | what a value parses to depends only on the bytes it takes |
| `Bencode.SortedAscending` | src/librats/bittorrent/bencode.cpp:373-381 | sorting leaves ascending entries as they are |
| `Bencode.SortedMultiset` | src/librats/bittorrent/bencode.cpp:373-381 | sorting permutes the entries |
| `Bencode.FindSorted` | src/librats/bittorrent/bencode.cpp:145-151 | lookup in the sorted entries equals lookup in the order written, when no key repeats |
| `BencodeParser.Parser.ParseMagnitude` | src/librats/bittorrent/bencode.cpp:296-305 | the overflow guard rejects exactly magnitudes above the limit |
| `BencodeParser.Parser.ParseRawInt` | src/librats/bittorrent/bencode.cpp:283-313 | accepts exactly canonical integers in int64 range, with their value |
| `BencodeParser.Parser.ParseRawString` | src/librats/bittorrent/bencode.cpp:317-332 | accepts exactly a length, a colon and that many bytes |
| `BencodeParser.Parser.ParseList` | src/librats/bittorrent/bencode.cpp:347-358 | computes the list-reading function |
| `BencodeParser.Parser.ParseDict` | src/librats/bittorrent/bencode.cpp:360-382 | entries in any order, sorted, refused exactly when a key repeats: the reading function, whose accepted texts are exactly the legal ones (LegalIsAccepted, AcceptedIsLegal, AnyKeyOrder) |
| `BencodeParser.Parser.ParseValue` | src/librats/bittorrent/bencode.cpp:266-274 | the cursor parser computes the reading function, with result and final position |
| `BencodeParser.DecodeFull` | src/librats/bittorrent/bencode.cpp:389-396 | succeeds exactly on one value that spans the buffer |
| `Dictionary.PutFind` | src/librats/bittorrent/bencode.cpp:159-166 | after an assignment the key has the new value, every other key its old one, and the keys stay ascending |
| `Dictionary.LookUp` | src/librats/bittorrent/bencode.cpp:145-151 | binary search agrees with a linear scan |
| `Dictionary.Assign` | src/librats/bittorrent/bencode.cpp:159-166 | insertion at the lower bound is the assignment function |
| `Dictionary.BuildFind` | src/librats/bittorrent/bencode.cpp:159-166 | a dictionary built by assignments holds for each key what was last assigned, whatever the order |
| `Dictionary.FindTyped` | src/librats/bittorrent/bencode.cpp:145-151 | a typed lookup gives a value iff the dictionary holds an entry of that key and type; on anything else it gives nothing |
| `Dictionary.BuildDecodes` | src/librats/bittorrent/bencode.cpp:240-244 | and it survives encoding and decoding |
| `Scanners.SkipAgrees` | src/librats/bittorrent/torrent_info.cpp:46-70 | whenever the parser accepts a value, the skipping scanner ends at the same place |
| `Scanners.InfoSpanExact` | src/librats/bittorrent/torrent_info.cpp:73-87 | whenever a buffer decodes to a dictionary, the span is missing iff info is, and otherwise is exactly the bytes the parser read for it; in any other value there is none |
| `Scanners.SpanDecodes` | src/librats/bittorrent/torrent_info.cpp:183-197 | decoding the span gives the root value of info |
| `Scanners.ReadBString` | src/librats/bittorrent/torrent_info.cpp:26-43 | the string reader accepts exactly what the parser accepts, with the same bytes and end |
| `Scanners.SkipOne` | src/librats/bittorrent/torrent_info.cpp:46-70 | the recursive scanner computes the skipping function |
| `Scanners.LocateInfo` | src/librats/bittorrent/torrent_info.cpp:73-87 | the top-level walk computes the span function |
| `Scanners.LengthAgrees` | src/librats/bittorrent/extensions.cpp:54-81 | whenever the parser accepts a value, the length scanner measures it exactly |
| `Scanners.LengthOfEncoding` | src/librats/bittorrent/extensions.cpp:54-81 | the length of an encoding is found whatever follows it |
| `Scanners.MeasureValue` | src/librats/bittorrent/extensions.cpp:54-81 | the scanner with its loops computes the length function |
| `Extensions.MetadataDataRoundTrip` | src/librats/bittorrent/extensions.cpp:138-169 | a data message gives back piece, total size and the raw block, for any block |
| `Extensions.MetadataControlRoundTrip` | src/librats/bittorrent/extensions.cpp:124-136 | request and reject messages give back their kind and piece |
| `Extensions.AnyHeader` | src/librats/bittorrent/extensions.cpp:138-169 | any header is refused iff it lacks an integer type or piece; the type counts modulo 256 and the numbers modulo 2^32, a missing size is 0, and exactly a data message carries what follows the header |
| `ResumeData.ResumeRoundTrip` | src/librats/bittorrent/resume_data.cpp:17-70 | a record read back is the record written, including bitfield, 64-bit totals and the optional info bytes |
| `ResumeData.RecordIff` | src/librats/bittorrent/resume_data.cpp:33-65 | any dictionary is taken iff it carries the format tag and a bitfield, if any, of exactly the bytes its piece count needs |
| `ResumeData.FieldByField` | src/librats/bittorrent/resume_data.cpp:33-70 | then every field is what the dictionary has under its name and type, or its default |
| `FileStorage.FileOfUnique` | src/librats/bittorrent/file_storage.cpp:9-19 | every byte of the torrent lies in exactly one file |
| `FileStorage.PieceSizeExact` | src/librats/bittorrent/file_storage.cpp:28-40 | a piece is what is left of the payload cut to the piece length, iff it is not number 2^32 - 1 of a torrent with pieces |
| `FileStorage.PiecesTile` | src/librats/bittorrent/file_storage.cpp:28-40 | each piece ends where the next starts, the last with the payload, and none is empty |
| `FileStorage.FileStorage.AddFile` | src/librats/bittorrent/file_storage.cpp:9-19 | appended at the running total, or refused with the layout untouched exactly for a negative size or an int64 overflow |
| `FileStorage.FileStorage.UpperBound` | src/librats/bittorrent/file_storage.cpp:56-62 | the first file that starts after the position |
| `FileStorage.FileStorage.MapBlock` | src/librats/bittorrent/file_storage.cpp:47-75 | the slices cover the range clamped to the payload exactly: in order, without gaps, one per file, each non-empty and inside its file |
| `StoreBuffer.StoreBuffer.Overlay` | src/librats/bittorrent/store_buffer.cpp:17-36 | each byte in the window shows the parked block with the largest offset that holds it, and is unchanged if none does |
| `StoreBuffer.ParkedShows` | src/librats/bittorrent/store_buffer.cpp:7-36 | a block just parked shows in every byte it holds that no parked block further on holds |
| `StoreBuffer.ErasedIsGone` | src/librats/bittorrent/store_buffer.cpp:12-36 | after an erase the overlay shows what it shows without the block, so nothing of it is left |
| `DiskModel.ChunkWritten` | src/librats/bittorrent/disk_io.cpp:106-118 | writing inside one file overwrites that stretch of the flat array and nothing else |
| `DiskModel.WithinPieceSize` | src/librats/bittorrent/file_storage.cpp:33-40 | a block of an existing piece lies within the piece size iff it stays within the piece length and the payload |
| `DiskModel.AcceptKeeps` | src/librats/bittorrent/disk_io.cpp:149-155 | accepting a block, also a newer version of one in flight, keeps what is seen equal to disk with the parked blocks on top |
| `DiskModel.AcceptApplied` | src/librats/bittorrent/disk_io.cpp:149-155 | all accepted writes still stand after one more, iff versions of a block in flight carry the same bytes |
| `DiskModel.SettledIffAgreeing` | src/librats/bittorrent/disk_io.cpp:149-164 | over any run, every write in flight stands among the accepted ones in every state iff every write agrees, when accepted, with the versions of its block then in flight |
| `DiskModel.SeenIffStanding` | src/librats/bittorrent/disk_io.cpp:149-164 | over any run without faults, readers see every accepted write in every state iff every write that lands still stands among the accepted ones |
| `DiskModel.AgreeingStands` | src/librats/bittorrent/disk_io.cpp:149-164 | writes that agree when accepted stand when they land, so a block may be written again with other bytes once it has landed |
| `DiskModel.FinishStep` | src/librats/bittorrent/disk_io.cpp:156-163 | finishing a write, with the block taken off the store, keeps everything consistent, its stretch now being what is on disk |
| `DiskModel.OverlayIsSeen` | src/librats/bittorrent/disk_io.cpp:120-136 | what the overlay shows of a byte of a piece is the seen array at that byte |
| `DiskIo.ThreadedDiskIo.EnsureFile` | src/librats/bittorrent/disk_io.cpp:73-104 | a file is created or extended with zeros to its size, never cut, and the flat array does not change |
| `DiskIo.ThreadedDiskIo.WriteRange` | src/librats/bittorrent/disk_io.cpp:106-118 | some front part of the data replaces that stretch of the array and nothing else changes; true iff the block lies within the payload and no file call in range fails, and then all of it is written |
| `DiskIo.ThreadedDiskIo.ReadFiles` | src/librats/bittorrent/disk_io.cpp:120-133 | true iff every byte of the range within the payload is on disk and no file call in range fails, and then the bytes are the array's, with zeros past the payload |
| `DiskIo.ThreadedDiskIo.ReadRange` | src/librats/bittorrent/disk_io.cpp:120-136 | the same condition; with the store, each byte shows the parked blocks of the piece on top of the array |
| `DiskIo.ThreadedDiskIo.AsyncWrite` | src/librats/bittorrent/disk_io.cpp:149-164 | the block counts as written at once, also over an older version of it in flight: seen and accepted arrays are overwritten and the queued bytes grow by its size; the accepted writes stay undisputed iff versions in flight agree |
| `DiskIo.ThreadedDiskIo.FinishWrite` | src/librats/bittorrent/disk_io.cpp:156-163 | in any order of completion: true iff no file call in range fails; a failed write changes no seen byte outside its block, a successful one nothing iff its bytes were the ones seen, and the queued bytes stay those in flight |
| `DiskIo.ThreadedDiskIo.Run` | src/librats/bittorrent/disk_io.cpp:149-164 | over any run of writes and completions the jobs and accepted writes are those of the books, and so is what readers see if no file call fails; in particular readers see every accepted write as long as each agrees, when accepted, with the versions of its block in flight |
| `DiskIo.ThreadedDiskIo.OlderVersionResurfaces` | src/librats/bittorrent/disk_io.cpp:149-164 | of two versions of a block in flight the older one is seen again when it lands first, though the newer was accepted since |
| `DiskIo.ThreadedDiskIo.AsyncRead` | src/librats/bittorrent/disk_io.cpp:138-147 | true under the condition of ReadFiles, and then every byte within the piece is the seen array's |
| `DiskIo.ThreadedDiskIo.HashedBytes` | src/librats/bittorrent/disk_io.cpp:166-177 | the bytes hashed are the piece of the seen array |
| `DiskIo.ThreadedDiskIo.Drained` | src/librats/bittorrent/disk_io.cpp:149-164 | with nothing in flight the files hold what is seen, nothing is parked and the counter is 0 |
| `DiskIo.ThreadedDiskIo.ParkedButMissing` | src/librats/bittorrent/disk_io.cpp:151-154 | a parked block cannot be read while its file does not exist |
| `MetadataAssembly.MetadataDownload.EnsureBuffer` | src/librats/bittorrent/torrent.cpp:620-635 | the first plausible size is adopted and later ones are ignored |
| `MetadataAssembly.MetadataDownload.TryComplete` | src/librats/bittorrent/torrent.cpp:687-701 | done if the check passes, otherwise every slice is forgotten |
| `MetadataAssembly.MetadataDownload.OnMetadataPiece` | src/librats/bittorrent/torrent.cpp:673-685 | a slice is stored once and only with its exact length; the check is tried exactly when the last missing slice comes in; the counter is the number of slices held |
| `MetadataAssembly.RunIsSafe` | src/librats/bittorrent/torrent.cpp:673-701 | whatever is sent, a finished buffer passed the check, stays, and the adopted size never changes |
| `MetadataAssembly.HonestSlicesRebuild` | src/librats/bittorrent/torrent.cpp:673-701 | honest slices in any order with repeats, containing every slice, rebuild exactly the info bytes |
| `MetadataAssembly.WrongSizeNeverCompletes` | src/librats/bittorrent/torrent.cpp:620-635 | after a wrong size is adopted no sequence of messages completes the download |
| `MetadataAssembly.FreshCompletesIffSizeIsRight` | src/librats/bittorrent/torrent.cpp:620-701 | from the start, the honest slices complete the download iff the adopted size is the true one |
| `MetadataAssembly.TwoRoundsRebuild` | src/librats/bittorrent/torrent.cpp:673-701 | from any sound state of the right size, two rounds of honest slices rebuild the info bytes whatever lies were held |
| `MetadataAssembly.CompletesIffSizeIsRight` | src/librats/bittorrent/torrent.cpp:620-701 | from any sound unfinished state with an adopted size, two rounds of honest slices complete the download iff that size is the true one |
| `MetadataAssembly.OneLieCostsARound` | src/librats/bittorrent/torrent.cpp:687-701 | with one wrong slice held, one round of honest slices does not complete the download |
| `MetadataAssembly.AnswersRebuild` | src/librats/bittorrent/torrent.cpp:646-685 | the encoded answers of a peer to requests for all slices, decoded, rebuild the info bytes |
| `MetadataAssembly.RejectIsIgnored` | src/librats/bittorrent/torrent.cpp:646-671 | a request for a slice that does not exist is answered by a reject of it, which moves no download |

## Left out

- Sockets, pollers, the reactor thread, timers, trackers, DHT, peer exchange, the choker, peer lists, magnet links, client
  names and logging.
- SHA-1 is not modelled: a piece's hash check is an arbitrary outcome of its event, and the metadata check is a parameter.
- Random choices (where a bucket is entered, the shuffle of buckets, the order of the in-progress map) are arbitrary.
- `Torrent::pause` and `Torrent::stop`, which iterate over peers while closing them: peers leave one at a time. Messages a
  handler sends are not part of the swarm model; a failing send is a separate close.
- `set_piece_priority` is modelled as part of the picker. The torrent never calls it, so it is not one of its events.
- The peers' request counters are not tied to the picker's requesters, and `verified_bytes_` is not modelled: with
  duplicate blocks in flight neither equality holds in all runs.
- Connections in the swarm model are values of protocol state; the objects with their buffers are the model of the byte
  path. Handlers that run inside a connection's callbacks are separate steps, and an observer that closes the connection
  from the handshake callback is the parameter `admits`.
- Bitfields in the picker and the swarm are sequences of booleans; the packed bytes are the class `Bitfield`. Shifts and
  masks on bytes are arithmetic on numbers below 256.
- Copies made by moving or copying whole buffers, and the lifetime of slices handed out by `gather`, are not modelled.
  A new vector's capacity is exactly what was reserved for it.
- The stack a nested bencode value needs is not modelled; the depth limit of 100 is.
- Scanners.ValueLength: a length prefix so close to 2^64 that adding the header length wraps counts as too long.
- Scanners.MeasureValue: computes `ValueLength`, so the same holds of it.
- FileStorage.FileStorage.MapBlock: piece numbers whose start does not fit int64 are not cut to 64 bits.
- FileStorage.NumPieces: a payload within one piece length of the largest int64 is not modelled.
- Files are told apart by their index: two entries with the same path are not modelled. Creating a file is taken to give
  it its size when it succeeds. File-system calls fail on an arbitrary set of files per job. Files are not changed by
  anybody else.
- DiskIo.ThreadedDiskIo.AsyncWrite: blocks lie within their pieces, and two blocks in flight are versions of one block, of
  the same length, or share no byte; the torrent hands over no others. Writes handed over after `stop` are not modelled.
  Each job is one step, so two workers do not interleave inside a read.
- The extended handshake, peer-exchange messages, torrent-file parsing beyond the info span, and `check_files` are not
  modelled.
