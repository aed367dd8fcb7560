# Bentorrent, modelled and proved in Dafny

Bentorrent is a BitTorrent client. This project models the parts of it in which a mistake
would be hard to see, and proves what they are for:

- **The download engine.** A tracker cuts pieces into 16 KiB blocks, asks peers for a bounded
  number of them, and forgets requests that take too long (`Blocks`, `Tracker`, `Assignments`,
  `Rounds`, `PieceBlockTracking`). `SliceTracking` decides from the byte ranges that arrive when
  a piece is complete. `Storage`, `FileIo`, `FileTorrentIo`, `MemoryIo` and `Deliveries` keep the bytes;
  `PeerState` and `TorrentStates` know which peer has what. `Engine` puts these together as a
  state machine whose steps are the stretches between lock acquisitions, and `EngineSafety`,
  `EngineDispatch`, `EngineSteps`, `EngineBlocks` and `EngineFile` prove what every interleaving
  of the steps keeps and what each step does.
- **Bencoding.** Encoder and recursive descent parser (`Bencoding`), that they undo each other
  (`BencodingLaws`), which inputs come back byte for byte (`BencodingCanonical`), and what is
  accepted and refused besides (`BencodingAcceptance`).
- **The wire.** Messages and their framing (`Protocol`), reading them from a stream in arbitrary
  chunks (`Connections`), and bit fields (`BitField`).

Code that changes things step by step is modelled by classes and methods; each is proved to
compute a function on values (`Value() == F(old(Value()), ...)`), and the laws are lemmas about
these functions and about runs of them. What the source leaves to chance is a parameter: clock
readings, the element that a hash set yields first, which sends fail, how a stream is split into
chunks, and the hash function, which may be any function from bytes to digests.

A torrent is `Valid` when it has at least one piece, its length needs exactly that many pieces,
and a piece is shorter than 4 GiB, which is what the source's arithmetic takes for granted.

## Where the code falls short, exactly

- **Repeated blocks.** `Slices::insert` can make the tracker forget bytes. `InsertExactIff` says
  exactly when: the insert joins the slice on its left and moves that slice's end back over
  offsets that no other slice covers. `NormalInsertExactIff` is the same for lists that disjoint
  blocks leave, where it is one comparison; `RepeatedBlockShrinks` is an example. Nothing is ever
  covered that was not inserted, so completion is never reported too early.
- **Overlapping blocks and blocks without bytes.** `Slices::insert` joins a slice on the right only if
  it begins where the range ends, and not at all when the range begins where a slice does; and it
  keeps an empty range as a slice of its own. Slices stay maximal exactly when the slice that now
  holds the range ends before the next one, and the range is not an empty one that no slice takes in
  (`InsertNormalIff`). When all bytes have arrived, completion is reported exactly if the slices are
  maximal (`CompleteIffNormal`); `OverlapNotJoined` and `EmptyRangeStays` are examples in which it is
  not, the latter after one message without bytes and then every block once. `RunRepresentsIff` puts
  this and the repeated blocks together for whole runs: the slices are those of what was inserted,
  all through a run, exactly when every insert passes these comparisons, made before the call.
- **A short last piece.** A piece starts at its own length times its number, so a short last piece
  lies on top of others. Regions are disjoint, fill the file, and survive other writes exactly
  when the last piece has full length or is the only one (`RegionsDisjointIff`, `RegionsFillIff`,
  `WritesKeepOthersIff`); `ShortLastPieceOverwrites` is an example. Piece by piece: once complete, a
  piece keeps its bytes exactly if its region stands alone (`CompleteKeptIff`). All do but the short
  last piece and the one or two that it lies on (`StandsAloneIff`, `LastStandsAloneIff`,
  `FewOverlapped`), so what is proved for pieces that stand alone holds in every torrent.
- **Mismatched pieces.** A piece whose bytes do not match its hash stays complete. `read_piece` does
  not look at the hash, and writes to complete pieces are refused. So what is read of a piece that
  stands alone matches the hash exactly if no write answered a mismatch for it (`ReadVerifiedIff`),
  and a mismatched piece is never finished, whatever happens later (`MismatchedForever`); `MismatchServed`
  is an example.
- **Withdrawn requests.** `remove_request` leaves the entry in the expiry queue. A block expires
  exactly when some request for it in the history, even a withdrawn one, is old enough now and was
  not found old before (`ExpiresByHistory`), so a block asked for again can expire one tick later
  (`StaleEntryExpiresEarly`). A block whose requests are all young is kept (`YoungKept`).
- **Finishing a piece that was never asked for.** `set_piece_finished` does not take it out of
  `pieces_not_started`. For the tracker alone, the groups of pieces stay apart exactly when that does
  not happen and no completed piece is assigned (`StaysApartIff`, `RunApartIff`). The engine assigns
  incomplete pieces only, so there the first condition is the exact one (`StepApartIff`,
  `ReachApartIff`), and it is enough that peers finish only pieces that were asked for
  (`AskedForStaysApart`). A peer that sends a piece unasked makes it both completed and not started
  (`UnaskedPieceInTwoGroups`). No piece is ever forgotten (`NoPieceForgotten`).
- **Short blocks.** A `Piece` message marks the block that begins where it does as done, whatever its
  length. A done block has arrived if no accepted write at its place was shorter (`DoneHasArrived`),
  and where writes stay inside blocks, exactly if one carried the whole block (`BlockArrivedIff`).
  `ShortBlockIsDone` is an example of a block that is done, so never asked for again, and incomplete.
- **Choking.** Every peer is sent a choke when it connects, but in the client's books no known peer
  is ever choked, in any interleaving (`InterestIsTold`), so none of its requests is ignored for that.
- **Re-encoding.** The info hash is taken from re-encoded bytes. They equal the original exactly
  for canonical input (`ReencodeExactIff`); `PlusSignIsLost` is an example of other input.

## Model

| member | source | states |
|---|---|---|
| SliceTracking.Slices.BinarySearchByStart | src/peer/io/mod.rs:38-40 | finds the slice that starts at the key, or the place where one would go |
| SliceTracking.Slices.Insert | src/peer/io/mod.rs:35-83 | the in-place growing, joining, inserting and removing computes `Inserted`, keeps the order that the search needs, and answers completion |
| SliceTracking.InsertSorted | src/peer/io/mod.rs:38-82 | any insert into ordered slices leaves ordered slices |
| SliceTracking.InsertExactIff | src/peer/io/mod.rs:41-81 | an insert covers exactly the old offsets and the new range if and only if it moves no end back over offsets covered nowhere else |
| SliceTracking.NormalInsertExactIff | src/peer/io/mod.rs:64-70 | after disjoint blocks this is one comparison: the new end is not before the end of the slice joined on the left |
| SliceTracking.InsertNormalIff | src/peer/io/mod.rs:41-81 | slices stay maximal and gaps apart if and only if the slice that now holds the range ends before the next one and the range is not an empty one that no slice takes in |
| SliceTracking.CompleteIffNormal | src/peer/io/mod.rs:85-89 | when exactly the piece is covered, completion is reported if and only if the slices are maximal |
| SliceTracking.RunRepresentsIff | src/peer/io/mod.rs:35-83 | over any run of overlapping, repeated or empty inserts, the slices are the maximal ones of what was inserted, all through the run, if and only if each insert moves no end back, ends before the next slice and is not an empty range between slices |
| SliceTracking.ExactRunCompleteIff | src/peer/io/mod.rs:85-89 | after such a run completion is reported if and only if exactly the piece was inserted |
| SliceTracking.RepeatedBlockShrinks | src/peer/io/mod.rs:64-70 | when three blocks have arrived and the middle one is repeated, the third is forgotten |
| SliceTracking.OverlapNotJoined | src/peer/io/mod.rs:42-47 | three inserts that cover a piece without completing it |
| SliceTracking.EmptyRangeStays | src/peer/io/mod.rs:73-76 | after an empty range, all blocks, once each, cover the piece without completing it |
| SliceTracking.RunSound | src/peer/io/mod.rs:35-83 | over any run of overlapping or repeated inserts, slices stay ordered and nothing is covered that was not inserted |
| SliceTracking.CompleteOnlyWhenAllInserted | src/peer/io/mod.rs:85-89 | over any run, completion means that every offset of the piece was inserted |
| SliceTracking.InsertFresh | src/peer/io/mod.rs:48-81 | a range that arrives for the first time is added exactly, and the slices stay maximal and gaps apart |
| SliceTracking.RunDisjoint | src/peer/io/mod.rs:35-83 | over any run of disjoint inserts the slices are maximal, gaps apart, and cover exactly what was inserted |
| SliceTracking.NormalUnique | src/peer/io/mod.rs:20-23 | a set of offsets has only one list of maximal slices |
| SliceTracking.OrderIndependent | src/peer/io/mod.rs:35-83 | disjoint inserts give the same slices in every order |
| SliceTracking.DisjointCompleteIff | src/peer/io/mod.rs:85-89 | after disjoint inserts, completion is reported if and only if they are exactly the piece |
| Torrents.AllocateTorrent | src/peer/mod.rs:36-47 | every piece has at least one byte and at most the piece length |
| Torrents.PieceSizesSum | src/peer/mod.rs:36-56 | the piece lengths add up to the length of the torrent |
| Blocks.KeysFrom | src/peer/state/piece.rs:42-57 | the planned offsets are exactly the multiples of the block size inside the piece, ascending |
| Blocks.NewAllocation | src/peer/state/piece.rs:25-70 | the planning loop asks the first peer for the first blocks not busy, as many as the capacity allows, and lowers the capacity by their number; each request stays inside its piece and asks for 16 KiB or for the rest of the piece |
| Blocks.LastBlockClipped | src/peer/state/piece.rs:42-62 | a piece of 20000 bytes is asked for in 16384 and 3616 |
| Blocks.PlannedIsPrefix | src/peer/state/piece.rs:42-65 | any sequence of capped planning calls goes through the blocks of the piece in order, each once |
| Blocks.DistinctBlocksComplete | src/peer/state/piece.rs:42-65 | distinct blocks complete a piece if and only if they are all of its blocks |
| Blocks.PlannedBlocksComplete | src/peer/state/piece.rs:42-65 | planner and slices agree: if the planned requests are answered once each, as long as they ask, in any order, completion is reported on the last one of the piece and on no earlier one |
| Tracker.AssignedHolds | src/peer/state/piece.rs:331-341 | assigning a piece puts exactly the planned blocks in flight and changes no other request |
| Tracker.AssignCapacity | src/peer/state/piece.rs:317-318 | assigning uses capacity up one by one and never exceeds it, so the subtraction cannot underflow |
| Tracker.ExpiredReported | src/peer/state/piece.rs:198-230 | the requests reported as expired are exactly those that were dropped, each once |
| Tracker.StepInv | src/peer/state/piece.rs:97-165 | every operation keeps: bounded requests in flight, in flight and done disjoint, requests filed under their own exact block, a queue entry for each block in flight |
| Tracker.After | src/peer/state/piece.rs:244-360 | the same in every state that a run of operations reaches |
| Tracker.RequestsConserved | src/peer/state/piece.rs:97-165 | over any run, requests for a block equal those withdrawn, those cleared with their piece, and the one in flight or done |
| Tracker.NoRepeatWithoutWithdrawal | src/peer/state/piece.rs:47-51 | a block asked for twice was withdrawn or expired in between, unless its piece was finished |
| Tracker.QueueKeepsTime | src/peer/state/piece.rs:189-196 | with a monotone clock the queue is sorted and holds the current start of every block in flight |
| Tracker.YoungAfterExpiry | src/peer/state/piece.rs:198-230 | after an expiry check every block in flight is younger than the time to live; done blocks and completed pieces are untouched |
| Tracker.ExpiresIff | src/peer/state/piece.rs:198-230 | a block in flight expires if and only if some queue entry for it was made the time to live ago, or longer |
| Tracker.QueueIsHistory | src/peer/state/piece.rs:189-230 | with a monotone clock the queue holds exactly the requests of the history that no check has found old |
| Tracker.ExpiresByHistory | src/peer/state/piece.rs:198-230 | a check drops a block in flight if and only if some request for it in the history is at least as old as the time to live and no earlier check found it so |
| Tracker.YoungKept | src/peer/state/piece.rs:202-227 | a block in flight of which every request is younger than the time to live stays in flight |
| Tracker.StaleEntryExpiresEarly | src/peer/state/piece.rs:106-110 | a withdrawn request's entry expires the next request for the block one tick after it was made |
| Tracker.StepPieces | src/peer/state/piece.rs:122-129 | how each operation moves pieces between not started, started and completed |
| Tracker.NoPieceForgotten | src/peer/state/piece.rs:256-261 | over any run, not started, started and completed pieces together are all pieces |
| Tracker.StaysApartIff | src/peer/state/piece.rs:293-341 | the three groups stay disjoint if and only if no completed piece is assigned to a peer while there is capacity, and no piece is finished that was not started |
| Tracker.RunApartIff | src/peer/state/piece.rs:293-341 | the groups are disjoint all through a run of operations if and only if each operation respects that |
| PieceBlockTracking.PieceBlockTracker.DownloadingRequestsLen | src/peer/state/piece.rs:118-120 | the sum over the inner maps is the number of blocks in flight |
| PieceBlockTracking.PieceBlockTracker.RemoveRequest | src/peer/state/piece.rs:106-110 | withdraws the block, keeps the invariant, and answers whether the piece has an entry, not whether the block was in flight |
| PieceBlockTracking.PieceBlockTracker.SetRequestFinished | src/peer/state/piece.rs:97-104 | moves a block from in flight to done, or answers false and changes nothing |
| PieceBlockTracking.PieceBlockTracker.SetPieceFinished | src/peer/state/piece.rs:293-296 | drops the blocks of the piece and records it as completed, keeping the invariant |
| PieceBlockTracking.PieceBlockTracker.RemoveExpired | src/peer/state/piece.rs:198-230 | the pop and push-back loop terminates, drops exactly the blocks of the old prefix of the queue, and reports them |
| PieceBlockTracking.PieceBlockTracker.AssignPiece | src/peer/state/piece.rs:308-345 | asks for and records exactly the planned blocks, keeping the invariant |
| PieceBlockTracking.PieceBlockTracker.GenerateAssignments | src/peer/state/piece.rs:347-359 | piece after piece, the requests are one greedy choice over all available blocks, keeping the invariant |
| Assignments.WantedExact | src/peer/state/piece.rs:352-358 | the greedy list is exactly the available blocks that are not busy, in order of piece and offset |
| Assignments.GeneratesGreedily | src/peer/state/piece.rs:308-359 | one call asks for the first min(capacity, missing) of these blocks and puts exactly them in flight |
| Assignments.NeverIdle | src/peer/state/piece.rs:308-359 | with capacity left and a missing available block, a call asks for something |
| Assignments.GeneratedServed | src/peer/state/piece.rs:32-64 | every request is for an exact block and goes to the first peer of a non-empty set for its piece |
| Assignments.GeneratedIsRun | src/peer/state/piece.rs:352-358 | a call is a run of tracker events, so what holds over all runs holds for calls |
| Rounds.RoundsAskForEachBlockOnce | src/peer/state/piece.rs:289-359 | asking and acknowledging everything, round r asks for the blocks r * max up to (r + 1) * max of the torrent, so each exactly once |
| Rounds.RoundsNeeded | src/peer/state/piece.rs:289-359 | exactly ceil(blocks / max) rounds ask for something |
| Storage.RegionsDisjointIff | src/peer/io/file.rs:73-79 | the regions of the pieces are disjoint if and only if the last piece has full length or is the only one |
| Storage.RegionsFillIff | src/peer/io/file.rs:73-79 | the regions fill the file under the same condition |
| Storage.StandsAloneIff | src/peer/io/file.rs:73-79 | a piece of full length overlaps no other if and only if the last piece does not lie on it |
| Storage.LastStandsAloneIff | src/peer/io/file.rs:73-79 | the last piece overlaps no other if and only if it has full length or is the only one |
| Storage.FewOverlapped | src/peer/io/file.rs:73-79 | a short last piece lies on one or two of the others; all the rest overlap no other |
| FileIo.WriteKeepsOthers | src/peer/io/file.rs:90-101 | a write changes no piece whose region is apart from its own, and no complete piece it is meant for |
| FileIo.CompleteKeptIff | src/peer/io/file.rs:73-101 | a complete piece keeps its bytes in every run of writes from the empty file if and only if its region overlaps no other |
| FileIo.VerifiedForever | src/peer/io/file.rs:90-144 | after a write answered true for a piece that overlaps no other, every later run of writes leaves it matching its hash, and reading any part of it gives the same bytes |
| FileIo.VerifiedIff | src/peer/io/file.rs:103-116 | over any run of writes, such a piece once complete matches its hash if and only if no write answered a mismatch for it |
| FileIo.ReadVerifiedIff | src/peer/io/file.rs:124-144 | so what is read belongs to a piece that matches its hash if and only if no write answered a mismatch |
| FileIo.MismatchServed | src/peer/io/file.rs:90-144 | a wrong byte is served, and the right one is refused |
| FileIo.WritesKeepOthersIff | src/peer/io/file.rs:73-101 | accepted writes leave all other pieces alone if and only if the regions are aligned |
| FileIo.ShortLastPieceOverwrites | src/peer/io/file.rs:75-76 | writing a short last piece spoils a piece that was verified |
| FileIo.HonestCompleteIsContent | src/peer/io/file.rs:90-122 | if all writes to a piece that overlaps no other carry the right bytes, however they overlap and repeat and whatever is written elsewhere, once complete it is the piece of the download |
| FileIo.HonestDownload | src/peer/io/file.rs:90-122 | and with aligned regions, when all pieces are complete the file is the download |
| FileIo.HonestRead | src/peer/io/file.rs:124-144 | any part that is read of a piece delivered with the right bytes is that part of the download |
| FileIo.LastBlockFinishes | src/peer/io/file.rs:90-116 | if the blocks of a piece that overlaps no other arrive whole and right, each at most once, in any order and among any other writes, a write answers true if and only if it is the last of them |
| FileIo.WriteAnswers | src/peer/io/file.rs:90-122 | which answer a write gets, for each answer if and only if |
| FileIo.ReadAnswers | src/peer/io/file.rs:124-144 | which answer a read gets, and the bytes of the file it gives |
| FileTorrentIo.FileTorrentIO.constructor | src/peer/io/file.rs:59-86 | the layout loop gives every piece its hash, its start, its size and empty slices over a zero file |
| FileTorrentIo.FileTorrentIO.WritePiece | src/peer/io/file.rs:90-122 | checks in order, writes the bytes at the piece's place, records the range, and answers by comparing the hash; each error case leaves the specified state |
| FileTorrentIo.FileTorrentIO.ReadPiece | src/peer/io/file.rs:124-144 | gives the bytes of a complete piece, or the error of the first check that fails |
| MemoryIo.MemoryTorrentIO.WritePiece | src/peer/io/mod.rs:126-143 | copies the block byte by byte into the piece's buffer and answers completion |
| MemoryIo.MemoryTorrentIO.ReadPiece | src/peer/io/mod.rs:145-152 | gives the bytes of the buffer, or the error for an unknown piece |
| MemoryIo.ReadAfterWrite | src/peer/io/mod.rs:126-152 | a block that was accepted is read back |
| MemoryIo.ReadElsewhere | src/peer/io/mod.rs:126-152 | and reading any other range gives what it gave before |
| MemoryIo.WriteAnswers | src/peer/io/mod.rs:126-143 | which answer a write gets, for each answer if and only if |
| MemoryIo.HonestTrueMeansContent | src/peer/io/mod.rs:126-143 | after writes that carry the right bytes, answering true means that the buffer is the piece of the download |
| MemoryIo.HonestRead | src/peer/io/mod.rs:145-152 | and any part that is read then is that part of the download |
| MemoryIo.LastBlockFinishes | src/peer/io/mod.rs:126-143 | if the blocks of a piece arrive whole, each at most once, in any order and among other blocks, a write answers true if and only if it is the last of them |
| PeerState.PieceAdded | src/peer/state/mod.rs:82-94 | adds one pair to the relation and keeps its two maps inverse to each other |
| PeerState.PeerRemoved | src/peer/state/mod.rs:107-115 | removes exactly the pairs of the peer and keeps the two maps inverse |
| PeerState.AvailableExact | src/peer/state/mod.rs:253-266 | a piece can be asked of exactly the known peers that do not choke us and have it |
| PeerState.PeersThatChokeExact | src/peer/state/mod.rs:173-187 | every known peer is among those that choke us or those that do not, by its last message |
| PeerState.InterestOnlyBegins | src/peer/state/mod.rs:209-236 | learning of pieces announces a change of interest exactly when interest begins, never that it ends |
| PeerState.PeerPieceMap.RemovePeer | src/peer/state/mod.rs:107-115 | the loop over the peer's pieces removes it from both maps |
| TorrentStates.TorrentState.AddPiecesForPeer | src/peer/state/mod.rs:209-236 | records the pieces one by one, keeps the state consistent, and answers the change of interest |
| TorrentStates.TorrentState.PieceIdToPeers | src/peer/state/mod.rs:253-266 | offers every incomplete piece with the peers that can serve it |
| TorrentStates.TorrentState.RemovePeer | src/peer/state/mod.rs:268-276 | forgets everything about the peer and keeps the state consistent |
| Engine.Next | src/peer/state/mod.rs:325-389 | every step of the engine keeps the tracker's invariant, consistent peer state and well-formed storage |
| EngineSafety.TrackerIsRun | src/peer/state/mod.rs:566-610 | in every interleaving the tracker is where a run of its own events takes it |
| EngineSafety.TrackerRunInRange | src/peer/state/mod.rs:763-795 | and these events name pieces of the torrent, so no piece is forgotten in any interleaving |
| EngineSafety.StepApartIff | src/peer/state/mod.rs:763-776 | a step of the engine that starts with disjoint groups ends with disjoint groups, unless, and only unless, it finishes a piece that is not started |
| EngineSafety.ReachApartIff | src/peer/state/mod.rs:253-276 | the groups are disjoint all through an interleaving if and only if none of its steps does that |
| EngineSafety.AskedForStaysApart | src/peer/state/mod.rs:763-776 | it is enough that every write that finishes a piece finds the piece asked for, however long the handler then waits for the lock |
| EngineSafety.UnaskedPieceInTwoGroups | src/peer/state/mod.rs:763-776 | a piece that a peer sends unasked is completed and not started at once |
| EngineSafety.WriteSound | src/peer/state/mod.rs:768-769 | after a write the slices claim no more than accepted writes covered, and an answer true means that the whole piece was covered |
| EngineSafety.NewClaims | src/peer/state/mod.rs:770-795 | a step claims a new piece only by a write that finishes it |
| EngineSafety.AnnouncedHasArrived | src/peer/state/mod.rs:549-635 | in every interleaving, a piece completed, announced by `Have` or set in a sent bit field has had each byte in an accepted write |
| EngineSafety.AnnouncedForever | src/peer/state/mod.rs:763-795 | with the file, such a piece that overlaps no other matches its hash now and after every further run, and reads the same |
| EngineSafety.ReachMirrors | src/peer/state/mod.rs:144-187 | in every interleaving the state knows of a peer exactly what its messages since its connection last closed said: pieces, choking, interest, and whether there is a channel |
| EngineSafety.RequestsGoToServingPeers | src/peer/state/mod.rs:566-610 | in every interleaving, a request is sent only to a peer with a channel that does not choke us and has announced the piece since it last closed, for an exact block, inside the piece and of full length or up to its end, neither in flight nor done, of a piece that is not completed unless an earlier step finished a piece that was not started |
| EngineDispatch.DispatchSends | src/peer/state/mod.rs:566-610 | after a dispatch the blocks newly in flight are exactly those of the requests that were sent, each recorded as it was sent, and nothing else changes in flight or done |
| EngineDispatch.InFlightWasSent | src/peer/state/mod.rs:581-606 | in every interleaving each block in flight was sent to a peer, as the request that is recorded for it |
| EngineSteps.ConnectTells | src/peer/state/mod.rs:614-635 | in every interleaving a new peer is sent one bit field, of ceil(pieces / 8) bytes, that names exactly the completed pieces |
| EngineSteps.AnnounceTells | src/peer/state/mod.rs:549-564 | a finished piece can be announced from then on, and announcing tells peers of exactly that piece |
| EngineSteps.TickExpires | src/peer/state/mod.rs:366-370 | in every interleaving a tick drops a block in flight if and only if some request for it is old by now and was not found old by an earlier tick |
| EngineSteps.WriteHandled | src/peer/state/mod.rs:768-769 | only a write that was accepted and not mismatched is handled further, with its answer |
| EngineSteps.BlockDone | src/peer/state/mod.rs:780-794 | handling a block that was in flight makes it done, with its request, and no other block changes; one that was not in flight changes nothing |
| EngineSteps.PieceDone | src/peer/state/mod.rs:771-779 | handling the block that finished a piece completes the piece and forgets exactly its blocks |
| EngineSteps.OffersIncomplete | src/peer/state/mod.rs:253-266 | in every interleaving planning is offered every piece that is not completed, and no other if no piece was finished that was not started |
| EngineSteps.InterestIsTold | src/peer/state/mod.rs:209-236 | in every interleaving a known peer with a piece we have not started was told of our interest, and no known peer is choked in our books |
| EngineBlocks.DoneHasArrived | src/peer/state/mod.rs:763-790 | in every interleaving, a block that counts as done has all its bytes in accepted writes, provided no accepted write at its place was shorter than the block |
| EngineBlocks.BlockArrivedIff | src/peer/state/mod.rs:768-769 | if accepted writes begin at blocks and stay inside them, a block has arrived if and only if one of them carried the whole block |
| EngineBlocks.AllDoneHasArrived | src/peer/state/mod.rs:763-790 | so when all blocks of a piece are done and no write at them was short, the whole piece has arrived |
| EngineBlocks.ShortBlockIsDone | src/peer/state/mod.rs:780-790 | one byte sent in place of the first block makes the whole block done |
| EngineBlocks.EmptyBlockAccepted | src/peer/state/mod.rs:763-769 | either storage accepts a first message without bytes and keeps an empty slice |
| EngineFile.FileIsRun | src/peer/state/mod.rs:763-769 | in every interleaving the file is what the blocks that arrived, in order, make of an empty one |
| EngineFile.ClaimedIff | src/peer/state/mod.rs:763-795 | in every interleaving the client holds a piece to be finished, or told a peer so, if and only if it is complete and no write answered a mismatch for it |
| EngineFile.ReadVerifiedIff | src/peer/io/file.rs:124-144 | in every interleaving what is read of a piece that overlaps no other belongs to a piece that matches its hash if and only if the client holds it to be finished |
| EngineFile.MismatchedForever | src/peer/io/file.rs:90-116 | a mismatched piece is never completed, announced or set in a bit field, in any later run |
| Bencoding.Encode | src/file/bencode.rs:83-90 | the appending encoders compute the encoding of the value |
| Bencoding.EncodeList | src/file/bencode.rs:61-69 | the loop computes `l`, the encodings of the elements in order, `e` |
| Bencoding.EncodeDictionary | src/file/bencode.rs:71-82 | the loop computes `d`, keys and values in order, `e` |
| Bencoding.ParseType | src/file/bencode.rs:142-151 | the mutually recursive parser terminates on remaining length, and what it accepts fits its types with dictionary keys strictly ascending |
| Bencoding.CollectedWellFormed | src/file/bencode.rs:132-140 | collecting pairs in any order gives ascending keys without repetition |
| BencodingLaws.DecimalParsed | src/file/bencode.rs:101-105 | a printed i64 is read back, including the smallest one |
| BencodingLaws.RoundTrip | src/file/bencode.rs:50-151 | parsing the encoding of any value followed by anything gives the value and exactly what followed |
| BencodingLaws.PrefixFree | src/file/bencode.rs:83-90 | no encoding is, or begins with, the encoding of another value |
| BencodingLaws.ReparseSame | src/file/bencode.rs:142-158 | for any accepted input, parsing the re-encoding gives the same value |
| BencodingLaws.LastWins | src/file/bencode.rs:132-140 | of repeated keys the last value is kept |
| BencodingCanonical.NumberExactIff | src/file/bencode.rs:101-112 | a number is printed as it was written if and only if it was written without leading zeros |
| BencodingCanonical.ReencodeExactIff | src/model/torrent.rs:34-39 | re-encoding gives back the consumed bytes if and only if the input has plain numbers and strictly ascending keys throughout |
| BencodingCanonical.PlusSignIsLost | src/file/bencode.rs:101-105 | an accepted input that re-encoding changes |
| BencodingAcceptance.EncodingAccepted | src/file/bencode.rs:153-158 | the top-level function gives back every value from its encoding followed by anything |
| BencodingAcceptance.DictionaryAccepted | src/file/bencode.rs:132-140 | keys may come in any order and repeated; the last value of each is kept |
| BencodingAcceptance.LessExact | src/file/bencode.rs:132-140 | the order of keys is that of their first different byte, a key before those it begins |
| BencodingAcceptance.IntAcceptedIff | src/file/bencode.rs:101-105 | digits with or without a sign or leading zeros are accepted as their value if and only if it fits |
| BencodingAcceptance.BytesAcceptedIff | src/file/bencode.rs:107-112 | a byte string is accepted if and only if its length fits and that many bytes follow |
| BencodingAcceptance.FirstByteNeeded | src/file/bencode.rs:142-151 | every value begins with `i`, `l`, `d` or a digit |
| BencodingAcceptance.SimpleBytes | src/file/bencode.rs:50-60 | integers and strings have the bytes that BEP 3 gives them |
| BencodingAcceptance.CompoundBytes | src/file/bencode.rs:61-82 | so have lists and dictionaries |
| Protocol.EncodeMessage | src/peer/protocol.rs:145-199 | appends length, id and payload; the constant lengths are those of the payloads |
| Protocol.DecodeMessage | src/peer/protocol.rs:206-264 | the cursor reads compute `Decode` and leave the cursor after the message |
| Protocol.MessageRoundTrip | src/peer/protocol.rs:145-264 | decoding an encoded message followed by anything gives the message and exactly what followed |
| Protocol.DecodeStable | src/peer/protocol.rs:206-264 | for all bytes, well formed or not, more bytes never change a message, an unknown id or an underflow that was decoded |
| Protocol.NeedsMeansIt | src/peer/net.rs:180-193 | with fewer bytes than a failed decoding asked for, decoding again cannot succeed |
| Protocol.StrictPrefixNeeds | src/peer/protocol.rs:207-217 | the beginning of a message is never taken for a message and never asks for more bytes than the message has |
| Protocol.DecodeRefuses | src/peer/protocol.rs:206-264 | an unknown id, or a flag with a payload, is refused, a `Piece` shorter than its header underflows, and nothing else does |
| Protocol.LengthField | src/peer/protocol.rs:145-199 | the length field counts the bytes that follow it, modulo 4 GiB |
| Protocol.SimpleWire | src/peer/protocol.rs:147-164 | the bytes of messages with at most one number and of bit fields: lengths, ids, big-endian numbers |
| Protocol.BlockWire | src/peer/protocol.rs:165-199 | the bytes of messages about blocks |
| Connections.Connection.ReadMsg | src/peer/net.rs:177-213 | the outcome and the bytes left depend only on the bytes, not on the chunks; an abandoned read loses no bytes |
| Connections.Receive | src/peer/net.rs:129-141 | however often reads are abandoned, the messages received and those still to come are those of the bytes |
| Connections.StreamRoundTrip | src/peer/net.rs:177-213 | from the encodings of any messages and a cut-off rest, exactly these messages are read, and then the end, or a reset if something was cut off |
| Connections.EncodingsDiffer | src/peer/protocol.rs:145-199 | different lists of messages never have the same bytes |
| BitField.BitFieldWriter.PutBit | src/peer/bitfield.rs:78-92 | into any buffer, a new byte every eighth bit, and the bit or-ed in |
| BitField.BitFieldWriter.PutBitSet | src/peer/bitfield.rs:94-98 | appends the bit field of the set to what the buffer holds, with the length truncated to 32 bits |
| BitField.PackedEncodes | src/peer/bitfield.rs:78-98 | that bit field has ceil(n / 8) bytes, bit i is set exactly for i in the set below n, and spare bits are zero |
| BitField.RoundTrip | src/peer/bitfield.rs:21-98 | reading what was written gives the set below n, zeros in the spare bits, and nothing beyond |
| BitField.EncodesUnique | src/peer/bitfield.rs:78-98 | a set and a length have only one bit field |
| BitField.HighestFirst | src/peer/bitfield.rs:21-37 | the highest bit of a byte comes first |
| BitField.PackedBytes | src/peer/bitfield.rs:78-98 | the bytes 10001001 and 11111000 are bits 0, 4, 7 and 8 to 12 |
| BitField.PiecesPresent | src/peer/state/mod.rs:707-713 | enumerating the iterator gives exactly the set bits, ascending |

## Left out

- Sockets, tasks, channels, mutexes, timers, the HTTP tracker and the command line: only the steps between lock acquisitions are kept.
- SHA-1 itself, wall-clock time, logging and hex formatting; the hash is any function and the clock any sequence of readings.
- Failing seeks, reads and writes of the file: storage operations succeed or report the errors of src/peer/error.rs that they check for.
- The message loop of `TorrentProcessor` is a state machine on values; its objects are modelled as classes, but not the sharing of one object between tasks.
- Nested structs that the source holds by value are flattened into the fields of `PieceBlockTracker`; the planner is given the set of busy blocks instead of the two maps.
- `compute_unchoke` (src/peer/state/mod.rs:396-464): both its candidate lists are differences against a superset, so it changes nothing.
- The queue of requests by peers (src/peer/state/mod.rs:468-529): batching that drops an element per batch, so it conserves nothing.
- The handshake: a fixed layout whose round trip would be an easy member.
- `TrackerResponse`, `TrackerPeer` and the field extraction of `V1Torrent`: dictionary lookups.
- `map_dict_keys` and lossy conversion of byte strings to text.
