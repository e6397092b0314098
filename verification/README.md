# The download engine of a BitTorrent client, in Dafny

This project models the part of the client that turns peers' messages into files on disk, and
proves what it keeps true over whole runs. The modules follow the program.

| file | what it models |
|---|---|
| `Prelude.dfy`, `Layout.dfy` | fixed-width arithmetic and sequence operations; how a torrent is cut into pieces and blocks |
| `MemoryPool.dfy` | the pool whose free list is threaded through the free blocks themselves |
| `FileManager.dfy` | the output files behind one flat address space |
| `Piece.dfy` | one piece in progress: the two index arrays, request times, the received bytes |
| `Engine.dfy`, `Download.dfy` | the piece manager as a state machine over values: its steps, its invariant, runs, the disk |
| `PieceManager.dfy` | the piece manager as an object whose every method is one step of that machine |
| `Selection.dfy`, `Runs.dfy` | what a granted block is; runs built step by step, up to a complete download |
| `Rarity.dfy` | whether the list of pieces is by rarity: exactly when it stays so, and runs in which it does not |
| `WrappedOffsets.dfy` | torrents beyond 4 GiB: what is lost and what is overwritten, and exactly when |
| `Messages.dfy`, `Window.dfy`, `PeerConnection.dfy` | the wire format; a peer's request window as a value and as an object |
| `Turns.dfy`, `Regrants.dfy` | the request window over many turns of the sending loop: what the reversed expiry does, alone and with the piece manager |
| `Endgame.dfy`, `EndgameEntry.dfy` | endgame mode over interleavings with other peers; exactly when it begins, and what holds it back |
| `EndgameTurns.dfy` | what the reversed expiry does in the endgame loop |
| `Availability.dfy` | the availability counters against the peers' bitfields |
| `Bencode.dfy`, `BencodeLaws.dfy`, `BencodeRoundTrip.dfy`, `Metadata.dfy` | the decoder, its laws, the encoding of BEP 3, reading a torrent file |
| `TorrentClient.dfy` | from an accepted torrent file to the engine: on which torrents it starts |
| `PlainEngine.dfy`, `PlainPeer.dfy` | what the piece manager's and a connection's operations do, in numbers and fields, every abbreviation written out |
| `Language.dfy`, `TorrentText.dfy` | the exact texts the decoder accepts and the value of each; the exact texts that are torrent files and what is read from them |

Classes stand where the source updates an object in place. Each of their methods is proved against
a value-level specification (a function such as `AcceptBlock`, or a relation such as `Answers`), and
the results about runs are lemmas on those specifications. A coroutine's suspension points are the
boundaries between methods, so a run is any interleaving of method calls. The digest is an arbitrary
function from bytes to bytes; nothing assumes that it has no collisions.

The main results:

- **End to end.** In every reachable state each completed piece lies in its place in the output and
  hashes to its recorded digest, no later step disturbs it, and when nothing is left every byte of
  the output belongs to such a piece (`Download.EndToEnd`, `Download.RunKeepsDisk`; byte by byte of the
  recorded digests, `PlainEngine.DigestsOnDisk`). The object follows that machine exactly, allocating from its
  two pools without ever failing.
- **Beyond 4 GiB.** For a torrent whose pieces pass their checks, every reachable state is sound if and
  only if no piece offset wraps (`WrappedOffsets.SoundIffOffsetsFit`).
- **Endgame.** It begins exactly when every incomplete piece is in progress, every missing block has been
  asked for and no block came unasked. The request list is exact on entry, stays sufficient over a step if
  and only if the step throws no piece away, and over any interleaving no peer loses a block of its own. Over
  whole runs from the start, the list is sufficient if and only if no piece failed its check in endgame mode
  (`Endgame.ListSufficesIff`), and a peer that enters at any state then has every missing block of its pieces in
  its window (`Endgame.EnteringPeerHoldsAll`).
- **Selection.** A granted block is a missing one that nobody was asked for recently; two grants of
  it are more than the timeout apart (`Selection.GrantsAreApart`). Rarest first is not kept: the search that
  updates the sorted list compares with the wrong counter. `Rarity.SearchKeepsOrderIff` and
  `Rarity.HaveKeepsOrderIff` say exactly when the list stays sorted, `Rarity.RarestOverRuns` gives rarest first
  over all runs in which it does, `Rarity.AlwaysRarestIff` says exactly which lists answer from a rarest piece,
  and `Rarity.OrderCanBeSpoiltIff` that it happens in every torrent of two pieces or more.
- **Memory.** Allocation hands out a free block, null comes back exactly when it must, and no live
  block's bytes change. A piece's data lives in its pool block from the first byte to the check and the
  write to disk, and its two index vectors, read back from the other two blocks, stay inverse to each other.
- **Bencode.** The decoder accepts a text as a value if and only if the text says that value, for a grammar stated
  without the decoder, leading zeros and repeated keys included (`Language.AcceptedIff`). Decoding inverts encoding
  on exactly the encodable values; each nested item's span, decoded alone, is that item.
- **Torrent files.** A text is a torrent file if and only if it says a dictionary with the fields required
  (`TorrentText.TorrentIff`); what is read from it is what it says (`TorrentText.TorrentSays`), and the info-hash is
  the digest of a part of it that says the `info` dictionary (`TorrentText.HashIsOfInfo`).
- **Starting.** The engine can be built on an accepted torrent if and only if the low 32 bits of its piece length
  are between 1 and 2^30 and its files are no longer than the pieces with a digest (`Client.StartsIff`).

## Where the code differs from its documentation or from what one would expect

The model follows the code.

- The comparison that expires a request (`src/PeerConnection.cpp:175` and `:289`) is the reverse of
  the comment at `src/PeerConnection.hpp:111`: it removes the requests that are still recent, and keeps
  those that are older than the timeout (`Window.ExpiresIffNotTimedOut`). The predicate `Window.Expires` is
  the code's; the conservation results take what expires as a parameter and hold for every choice. Over the
  turns of the loop before endgame mode, a late request stays until it is answered, so a peer that owes more than
  five of them is asked for nothing (`Turns.LateIsNeverDropped`, `Turns.LateStarve`), and two turns further apart
  than the timeout can bring that about (`Turns.TwoTurnsStarve`). With turns close together every turn forgets
  what the one before asked for, and the unanswered requests are not bounded by the window
  (`Turns.BriskTurnsForget`, `Turns.UnansweredUnbounded`). The piece manager goes along with that: a
  piece with blocks enough for the pace of the loop is granted five blocks a turn for any number of turns
  (`Regrants.UnansweredIsAskedForEver`). The endgame loop makes the same comparison: ten late requests whose
  blocks do not come leave no room to ask for anything (`EndgameTurns.TenLateAskNothing`), and recent ones are
  made again in every turn (`EndgameTurns.AskedAgainForEver`).
- The binary search of `add_available_piece` (`src/PieceManager.cpp:31-37`) is given a counter as the
  value, but its comparison takes both arguments for piece indices. So it compares with the counter of the
  piece whose number is the counter. The piece then changes places with the last piece of another counter, or
  the walk misses it and moves the piece at the front (`Rarity.WalkCanMiss`), and the list goes on being
  taken for sorted. If the counter is not the number of a piece, the comparison reads past the end of the
  counters (`Rarity.CanReadPastTheEndIff`); what it finds there is a parameter. In a list that is no longer
  in order a binary search may end at any place where the comparison changes, and the model allows every
  such place. When the search ends at the front, the swap is of a place before the list with itself, and
  the model leaves the list as it is.
- `piece_index * piece_size_` (`src/PieceManager.cpp:90`) is a 32-bit product. A piece that starts at
  2^32 or later is written elsewhere but counts as completed, and the write overwrites a piece whose own
  offset fits, which still counts as completed too. `WrappedOffsets.EveryTileAfterWrite` gives every
  piece's bytes after any write, `WrappedOffsets.SoundIffOffsetsFit` is the exact condition, and
  `WrappedOffsets.FourGiBAndAByteIsLost` is one such torrent.
- A piece that fails its check in endgame mode leaves the pieces in progress and its blocks are then
  ignored (`src/PieceManager.cpp:57` and `:97`), and nobody asks for it again
  (`src/PeerConnection.cpp:309`): `Endgame.CoveredIffNoMismatch`, `Endgame.DroppedStaysDropped` and, for
  a run in which it happens, `EndgameEntry.MismatchInEndgameIsReachable`.
- Endgame requests always carry the full block size (`src/PieceManager.cpp:179`), also for a short
  last block, so the list is stated to be exact over piece and offset.
- `have` messages without a bitfield message are counted in but never out
  (`src/PeerConnection.cpp:442` and `:619`): `Availability.AccurateIffDisciplined` is the exact
  condition and `Availability.HaveWithoutBitfieldLeaks` a history that leaks.
- A block that arrives without having been asked for has no request time and keeps
  `unrequested_blocks_` above zero (`src/Piece.cpp:40`), so endgame mode does not begin while its piece is
  in progress: `EndgameEntry.EndgameBeginsIff` and `EndgameEntry.RunKeepsStray`, and for a run in which it
  happens `EndgameEntry.UnaskedBlockHoldsEndgameBack`.
- `get_downloaded_bytes` counts a full piece for the last one too
  (`Download.DownloadedBytesOvershoot`).
- The piece length is narrowed to 32 bits (`src/TorrentClient.cpp:36`), so lengths of 0 and of 2^32 are accepted
  and then divide by zero: `Client.ZeroPieceLength`, and `Client.StartsIff` for the exact condition.
- The file offsets of a torrent are 64-bit sums; `Metadata.ContiguousIffNoWrap` says exactly when
  they form the contiguous layout that the writer relies on.

## Model

| member | source | states |
|---|---|---|
| Layout.ChunkEnds | src/PieceManager.cpp:139-140 | each piece (and, with the block size, each block) ends where the next begins, and the last one ends with the torrent |
| Layout.ChunksPartition | src/Utils.hpp:47-49 | every byte lies in exactly one chunk, the one at its quotient |
| Layout.ChunksSum | src/PieceManager.hpp:36 | the piece lengths add up to the torrent size, the first n of them to n full pieces |
| Layout.EveryByteInOneBlock | src/Piece.cpp:44-47 | every byte of the torrent lies in exactly one block of exactly one piece |
| Pools.LoadAfterStore | src/MemoryPool.cpp:15-25 | an index copied into a block and back is unchanged when it fits the bytes |
| Pools.NextAligned | src/Utils.hpp:60-62 | the result is a multiple of the alignment, at least the value and less than one alignment above it |
| Pools.MemoryPool.constructor | src/MemoryPool.hpp:18-26 | all blocks are free, in index order, none touched, and the block size is the aligned one |
| Pools.MemoryPool.IndexOfAddr | src/MemoryPool.hpp:59-68 | the index of a block's address is the block |
| Pools.MemoryPool.BlocksApart | src/MemoryPool.hpp:59 | two blocks share no byte |
| Pools.MemoryPool.LinkOneUntouched | src/MemoryPool.cpp:12-16 | linking the next untouched block keeps the chain valid and makes its head readable, changing no live block |
| Pools.MemoryPool.Allocate | src/MemoryPool.cpp:7-32 | null exactly when the size is too big or nothing is free; otherwise a free block becomes live, no other changes hands, and no live block's bytes change |
| Pools.MemoryPool.Deallocate | src/MemoryPool.cpp:33-45 | a live block becomes free at the head of the chain, null is ignored, and no remaining live block's bytes change |
| Pools.MemoryPool.UntouchedIsFree | src/MemoryPool.hpp:73-75 | every block never handed out is in the chain, as its implicit tail |
| Files.FileRange | src/TorrentMetadata.cpp:83-94 | in a contiguous layout file k occupies the range after the first k lengths, inside the whole |
| Pools.MemoryPool.WriteBlock | src/Piece.cpp:17 | a holder's write changes its own block at that place, no other block, and no link of the free list |
| Pools.MemoryPool.ReadBlock | src/Piece.hpp:74 | a holder reads the bytes of its block |
| Files.ConcatUpdate | src/FileManager.cpp:33 | overwriting part of one file overwrites the same bytes of the concatenation |
| Files.ConcatAt | src/FileManager.cpp:19-39 | a byte of a file is the byte at that distance from the file's start in the concatenation |
| Files.SplicedFiles | src/FileManager.cpp:27-38 | one write into the concatenation replaces in each file exactly the bytes inside the range, by the data that belong there |
| Files.FileManager.constructor | src/FileManager.cpp:9-17 | the output starts as zeros of the total length |
| Files.FileManager.FindFile | src/FileManager.cpp:20-25 | the search ends at a file whose closed range contains the offset, boundaries and empty files included |
| Files.FileManager.Write | src/FileManager.cpp:19-39 | the scatter loop is one write into the flat output, and in each file exactly the bytes inside its range are replaced |
| Files.FileManager.GetTotalLength | src/FileManager.cpp:41-48 | the sum of lengths is the length of the flat output |
| Pieces.ReceiveOk | src/Piece.cpp:9-28 | a received block leaves exactly itself out of the missing ones and keeps the piece well formed |
| Pieces.NextBlock | src/Piece.cpp:30-53 | none exactly when every missing block has a recent request; otherwise a missing block that has not |
| Pieces.NextBlockAt | src/Piece.cpp:31-38 | it is the first such block in trial order, whatever follows |
| Pieces.UnrequestedUpdate | src/Piece.cpp:40-42 | the counter of blocks without request time drops by one exactly on a block's first request |
| Pieces.AssemblyOfFirstCopies | src/Piece.cpp:9-28 | after any arrivals of exact blocks, a block is missing exactly if no copy came, and otherwise holds its first copy |
| Pieces.OrderIsIrrelevant | src/Piece.cpp:9-28 | two arrival orders with the same first copies complete to the same bytes, duplicates included |
| Pieces.SwapKeepsInverses | src/Piece.cpp:19-24 | swapping two entries of one index array and the matching two of the other keeps them mutually inverse |
| Pieces.SwapOut | src/Piece.cpp:19-27 | the swap to the end removes exactly that block from the missing prefix |
| Pieces.Piece.constructor | src/Piece.hpp:20-41 | a new piece misses every block, its arrays are mutually inverse, it took one data block and two index blocks from the pools, which hold zeros and the indices of the blocks in order |
| Pieces.Piece.AllocateStorage | src/FixedSizeAllocator.hpp:25-27 | with room in the pools all three allocations succeed, each with a block of its own |
| Pieces.Piece.Release | src/FixedSizeAllocator.hpp:35 | exactly the piece's three blocks go back to the pools |
| Pieces.Piece.IsBlockReceived | src/Piece.hpp:91-94 | a position at or after the boundary means exactly that the block is not missing |
| Pieces.Piece.IsComplete | src/Piece.hpp:66 | complete means no block is missing |
| Pieces.Piece.ReceiveBlock | src/Piece.cpp:9-28 | keeps the arrays mutually inverse, does to the piece what Receive says (first copy kept, later ones ignored), and does so in the piece's three pool blocks and no others |
| Pieces.Piece.MemoryIsInverse | src/Piece.hpp:91-94 | the entries read from the two index blocks are those of the arrays, and each block undoes the other |
| Pieces.WordsUpdate | src/Piece.cpp:19-24 | writing one 16-bit entry writes exactly its two bytes |
| Pieces.Piece.RequestNextBlock | src/Piece.cpp:30-53 | with the clock read anew for each block, hands out the next block with its offset and exact size and stamps it, or changes nothing |
| Engine.ReorderedPermutes | src/PieceManager.cpp:28-49 | whatever the search compares with and wherever it ends, the list still names every piece once |
| Engine.PermutationIndices | src/PieceManager.cpp:122-129 | the sorted order visits every piece index and nothing else |
| Engine.WriteFits | src/PieceManager.cpp:90 | even a wrapped offset keeps a piece's write inside the output |
| Download.CountFalseIsCard | src/PieceManager.hpp:102 | the number of incomplete pieces is the size of the set of incomplete pieces |
| Download.RequestedWithinIncomplete | src/PieceManager.cpp:162 | requested pieces are incomplete, at most as many as are left, and equally many only if they are all of them |
| Download.InitInv | src/PieceManager.hpp:26-51 | the invariant holds at the start |
| Download.FinishKeepsInv | src/PieceManager.cpp:80-97 | checking and forgetting a piece keeps every counting invariant, the completion flag included |
| Download.StepKeepsInv | src/PieceManager.cpp:14-189 | every operation keeps the invariant: counts, cap, requested pieces incomplete and well formed, the list a permutation, flag and request list |
| Download.RunKeepsInv | src/PieceManager.cpp:14-189 | so does every run |
| Download.TilesApart | src/PieceManager.cpp:139-140 | the ranges of two pieces in the output are disjoint |
| Download.FinishWritesOwnTile | src/PieceManager.cpp:85-91 | a verified piece fills its own range and no other, a failed one changes none, when no offset wraps |
| Download.RunKeepsDisk | src/PieceManager.cpp:53-98 | over a run completed pieces stay completed, their bytes stay as they are, and verified pieces stay on disk |
| Download.EndToEnd | src/PieceManager.cpp:53-98 | in every reachable state every completed piece is on disk with its digest; at the end every byte belongs to one |
| Download.TileWrittenIffOffsetFits | src/PieceManager.cpp:90-91 | a verified piece reaches its range exactly when its offset is below 2^32, and is marked completed either way |
| Download.OffsetsFitIffEachFits | src/PieceManager.cpp:90 | the condition on the whole torrent is that no single piece offset wraps |
| Download.DownloadedBytesOvershoot | src/PieceManager.hpp:127-129 | the reported number is the verified bytes plus the last piece's shortfall once that piece is in |
| Runs.FetchPiece | src/PieceManager.cpp:53-158 | from any quiet state an incomplete piece of any number of blocks can be asked for and delivered block by block |
| Runs.CompletionIsReachable | src/PieceManager.cpp:53-158 | for a torrent whose pieces pass their checks there is a run to completion |
| WrappedOffsets.EveryTileAfterWrite | src/PieceManager.cpp:90 | after a write every piece's range holds the written bytes where they overlap and its old bytes elsewhere, whether the offset wraps or not |
| WrappedOffsets.WrappedWriteMissesItself | src/PieceManager.cpp:90 | a wrapped write does not meet the piece's own range |
| WrappedOffsets.WrappedWriteHitsAnother | src/PieceManager.cpp:90 | a wrapped write meets the range of a piece whose own offset fits |
| WrappedOffsets.CompletedPieceIsLost | src/PieceManager.cpp:90-91 | for every piece beyond 2^32, of any number of blocks, there is a reachable state where it counts as completed and its range holds zeros |
| WrappedOffsets.VerifiedPieceIsDestroyed | src/PieceManager.cpp:90-91 | a completed and verified piece whose own offset fits no longer passes its check after a wrapped write onto it |
| WrappedOffsets.SoundIffOffsetsFit | src/PieceManager.cpp:53-98 | every reachable state has its completed pieces on disk if and only if no offset wraps, for content that passes its checks where zeros do not |
| WrappedOffsets.WrappedPiecesNeverPass | src/PieceManager.cpp:90-91 | if the piece size divides 2^32, then in every reachable state every completed piece beyond 2^32 fails its check, and no completed download with such a piece is sound |
| WrappedOffsets.FourGiBAndAByteIsLost | src/PieceManager.cpp:90-91 | a concrete torrent whose last piece is lost and whose first piece is destroyed by it |
| Manager.PieceManager.constructor | src/PieceManager.hpp:26-51 | sizes, cap and pools are set so that the object stands for the initial state; the pools are sized in plain numbers |
| Manager.CapSizesPools | src/PieceManager.hpp:33-44 | the data pool has blocks for 512 MiB of pieces, rounded up to whole ones, the other two blocks for each, of two bytes a block index and up to 15 of padding |
| Manager.CapFits | src/PieceManager.hpp:33-44 | at least one piece may be in progress, and both pools' block counts fit their index width |
| Manager.PieceManager.CountBits | src/PieceManager.cpp:15-21 | the loop adjusts the counters of exactly the set bits and counts whether there were any |
| Manager.PieceManager.UpdatePiecesAvailability | src/PieceManager.cpp:14-24 | a bitfield is counted in or out, and the order is marked stale exactly when a bit was set |
| Manager.PieceManager.UpperBound | src/PieceManager.cpp:31-38 | the binary search ends where the comparison changes; in an ordered list it splits it into counters up to the value and counters above it |
| Manager.PieceManager.MoveUp | src/PieceManager.cpp:29-49 | the search is for the counter of the piece whose number is the counter; the entry before the boundary and the one where the walk stops change places |
| Manager.PieceManager.AddAvailablePiece | src/PieceManager.cpp:26-51 | one counter grows by one in 16 bits and, if the list is taken for sorted, it is changed by that swap; the flag stays |
| Manager.PieceManager.Completed | src/PieceManager.hpp:102 | true exactly when every piece is completed |
| Manager.PieceManager.IsBlockReceived | src/PieceManager.hpp:138-144 | true exactly for blocks of completed pieces and received blocks of pieces in progress |
| Manager.PieceManager.ReceiveBlock | src/PieceManager.cpp:53-98 | the new state is AcceptBlock of the old: ignored, stored, or checked, written and forgotten; no other piece changes |
| Manager.PieceManager.FinishPiece | src/PieceManager.cpp:68-97 | a complete piece is checked, written if good and erased in either case, its storage going back to the pools |
| Manager.PieceManager.PieceBytes | src/PieceManager.cpp:70 | the data that is checked and written, read from the pool block, is what the piece received |
| Manager.PieceManager.WriteToDisk | src/PieceManager.cpp:86-90 | the flat output changes at the 32-bit offset and nowhere else |
| Manager.PieceManager.Erase | src/PieceManager.cpp:97 | the piece leaves the map and the free blocks again match the pieces in progress |
| Manager.PieceManager.StartPiece | src/PieceManager.cpp:135-145 | below the cap a new piece always gets its storage, and starts with its exact size and nothing received |
| Manager.PieceManager.RoomForPiece | src/PieceManager.hpp:33-44 | below the cap the pools have the free blocks for one more piece, and they are large enough |
| Manager.PieceManager.TryPiece | src/PieceManager.cpp:130-157 | a piece answers exactly when it can yield a block, and is unchanged (not even started) otherwise |
| Manager.PieceManager.SortByAvailability | src/PieceManager.cpp:123-125 | the result is a permutation ordered by availability |
| Manager.PieceManager.AllRequested | src/PieceManager.cpp:163-169 | true exactly when no piece in progress has a block without request time |
| Manager.PieceManager.CollectOpenBlocks | src/PieceManager.cpp:173-184 | the list names every missing block of every piece in progress once, at full block size |
| Manager.PieceManager.EnterEndgameIfDue | src/PieceManager.cpp:160-186 | the switch is one-way and made exactly when all incomplete pieces are in progress and fully requested |
| Manager.PieceManager.RequestNextBlock | src/PieceManager.cpp:115-189 | sorts if stale, answers from the first piece in order that can yield, else may enter endgame mode; the pools never fail |
| Manager.PieceManager.EndgameRemainingBlocks | src/PieceManager.cpp:100-113 | the listed blocks of the peer's pieces with their multiplicity and in their order, none before endgame mode |
| Selection.FreshPieceYields | src/PieceManager.cpp:135-153 | a piece just started always yields a block, so one call starts at most one piece |
| Selection.GrantedBlock | src/PieceManager.cpp:115-158 | the block is missing, whole, of an incomplete piece the peer has and not recently requested; it is stamped, no other piece changes, and a piece is started only below the cap |
| Selection.RarestFirst | src/PieceManager.cpp:122-158 | when the list was just sorted, or is still in order, no piece that could have yielded a block is rarer |
| Selection.GrantsAreApart | src/Piece.cpp:30-53 | over any run in which the clock does not run back and the piece stays in progress, the second reading for a block granted twice is more than the timeout after the first stamp |
| Rarity.WalkFindsIff | src/PieceManager.cpp:41-45 | in an ordered list the backward walk meets the piece if and only if its counter is at most the one searched for |
| Rarity.SearchKeepsOrderIff | src/PieceManager.cpp:26-51 | whatever counter the search compares with, it leaves an ordered list in order if and only if the last counter it passes is the piece's own, or the piece is the last of its counter and that one is one more, or is less and the least of all, or nothing is passed; a counter that wraps at 65535 must stand after zeros |
| Rarity.HaveKeepsOrderIff | src/PieceManager.cpp:26-51 | while the piece's counter is the number of a piece, that condition is about the counter of that piece |
| Rarity.EveryEndHarmlessIff | src/PieceManager.cpp:31-37 | so the condition that runs are stated with is then one test of the counters and the list |
| Rarity.HarmlessHaveIff | src/PieceManager.cpp:26-51 | a have message is harmless if and only if every outcome it may have leaves a list that is taken for sorted in order, reads past the end included |
| Rarity.StepKeepsOrder | src/PieceManager.cpp:14-189 | no step but a harmful have message leaves a list that is taken for sorted out of order |
| Rarity.RunKeepsOrder | src/PieceManager.cpp:14-189 | so over every run of harmless have messages, from the start or from any sort |
| Rarity.RarestOverRuns | src/PieceManager.cpp:115-158 | after every such run the answer is from a rarest piece that could have given one |
| Rarity.AlwaysRarestIff | src/PieceManager.cpp:122-158 | a list taken for sorted answers every peer from a rarest piece if and only if the pieces that could yield a block stand in it by rarity |
| Rarity.OrderCanBeSpoiltIff | src/PieceManager.cpp:26-51 | a state that is taken for sorted and answers some peer from a piece that is not a rarest can be reached if and only if the torrent has two pieces or more |
| Rarity.WalkCanMiss | src/PieceManager.cpp:41-49 | at counters 3, 0, 0, 0 the walk for piece 0 ends at another piece |
| Rarity.CanReadPastTheEndIff | src/PieceManager.cpp:31-37 | a state in which the search reads past the end of the counters can be reached if and only if there are fewer than 65536 pieces |
| Messages.NetworkOrderInMemory | src/Utils.hpp:22-28 | the swapped word's bytes in memory are the big-endian encoding |
| Messages.MemoryToNetworkOrder | src/TorrentMessage.cpp:96-110 | loading four bytes and swapping gives their big-endian value |
| Messages.BigEndianRoundTrip | src/Utils.hpp:22-38 | encoding and decoding a 32-bit word gives it back |
| Messages.SerializeMessage | src/TorrentMessage.cpp:115-147 | length prefix, id and payload are written in place and nothing else is; a keep-alive is one zero byte |
| Messages.CreateBlockMessage | src/TorrentMessage.cpp:149-199 | the 17 bytes are the request (or cancel) of that block in network order |
| Messages.StreamDecodes | src/TorrentMessage.cpp:149-199 | any number of messages, one after the other, decode to exactly those messages in order |
| Messages.PieceMessageRoundTrip | src/TorrentMessage.cpp:91-113 | a piece message parses to the index, offset and data it was made of |
| Messages.Unpack | src/PeerConnection.cpp:446-448 | bit i of the bitfield is bit i of the payload, most significant first |
| Messages.UnpackInvertsPack | src/PeerConnection.cpp:446-448 | unpacking inverts packing for every length |
| Window.ExpiresIffNotTimedOut | src/PeerConnection.cpp:289 | a request is given up on exactly when it is not older than the timeout, one made now in particular |
| Window.AnsweredHolds | src/PeerConnection.cpp:469-478 | settling a request removes one copy of exactly that block from the window |
| Window.RefreshDone | src/PeerConnection.cpp:138-188 | the two removal loops together conserve every block not received and cancel exactly the received pending ones |
| Window.SiftedBySplit | src/PeerConnection.cpp:144-153 | a swap-remove loop keeps exactly the entries its predicate spares, with multiplicity |
| Window.SiftedBetweenIsExact | src/PeerConnection.cpp:286-298 | what is promised of a loop that reads the clock anew for each entry is, for a clock that stands still, exactly that |
| Peers.PeerConnection.RefreshPendingRequests | src/PeerConnection.cpp:286-299 | with the clock read anew for each entry, those left are spared at the last time, those removed expired at the first, and none appears or is lost otherwise |
| Peers.PeerConnection.EnterEndgame | src/PeerConnection.cpp:190-201 | the remaining blocks are the listed ones of the peer's pieces, in any order |
| Peers.PeerConnection.EndgameRefreshPendingRequests | src/PeerConnection.cpp:138-188 | received blocks leave the window, blocks whose request expired by its own reading of the clock go back to remaining, none other is lost, and the buffer decodes to the cancels of exactly the received pending ones |
| Peers.PeerConnection.EndgameLoadBlockRequests | src/PeerConnection.cpp:102-136 | up to that many remaining blocks, taken off the front while the last one takes each place, move to the end of the window, each stamped with its own reading of the clock, and the buffer decodes to requests for exactly them |
| Peers.PeerConnection.EndgameTurn | src/PeerConnection.cpp:228-230 | a load asks for the smaller of five and the room left in the window (at most five, never more than ten pending, and fewer only when nothing remains), and the buffer decodes to requests for exactly what was added |
| Peers.PeerConnection.AskForBlock | src/PeerConnection.cpp:260-263 | one question is one step of the piece manager with this peer's bitfield |
| Peers.PeerConnection.LoadBlockRequests | src/PeerConnection.cpp:253-284 | the piece manager makes one step per question, each with its own clock, the answers are appended in order and stamped, and the buffer decodes to requests for exactly them |
| Peers.PeerConnection.RefreshAndLoad | src/PeerConnection.cpp:314-319 | expired requests leave, then five blocks are asked for if five fit and none otherwise |
| Peers.PeerConnection.SendRequestsTurn | src/PeerConnection.cpp:303-319 | nothing happens while the peer is choking; in endgame mode nothing is asked and the endgame loop is entered; before it, one refresh and load, by which five blocks are granted or fewer and then a refusal if at most five were kept, and none asked for otherwise; this is a step of the window's run; the run of the piece manager is gated |
| Peers.TurnIsStep | src/PeerConnection.cpp:314-319 | such a turn is a step of the window's run: kept requests, then at most the quota of new ones |
| Turns.LateStays | src/PeerConnection.cpp:286-299 | no turn removes a request that is older than the timeout, and an answer removes at most one |
| Turns.LateIsNeverDropped | src/PeerConnection.cpp:286-319 | over any run of turns and answers, late requests whose blocks are not answered all stay |
| Turns.LateStarve | src/PeerConnection.cpp:286-319 | over any run whose answers leave more than five late requests, nothing is asked for |
| Turns.TwoTurnsStarve | src/PeerConnection.cpp:286-319 | two turns further apart than the timeout fill the window with requests that starve every later run answering fewer than five |
| Turns.BriskTurnsForget | src/PeerConnection.cpp:286-319 | if no turn ends later than the timeout after the one before began, each leaves nothing in the window but what it asked for |
| Turns.UnansweredUnbounded | src/PeerConnection.cpp:286-319 | any number of batches of five can so be asked for without an answer, the window never holding more than five |
| Turns.AnswerIsStep | src/PeerConnection.cpp:469-478 | a piece message is a step of the window's run |
| Regrants.UnansweredIsAskedForEver | src/PeerConnection.cpp:253-319 | at any pace g up to the timeout, in every torrent with a piece of at least 5 (5000 / g + 1) blocks: for any n there are a run of the piece manager and one of the window, n turns long, that ask for the same five blocks a turn without an answer |
| Regrants.SomeAreRoomy | src/Duration.hpp:11-13 | a piece of 255 blocks is enough at the pace of the loop, and one of ten at one turn per timeout |
| Peers.PeerConnection.StartRun | src/PeerConnection.cpp:488-498 | a new run has nothing pending and no bitfield message and the peer is choking, but the bits of an earlier run are still there |
| Peers.PeerConnection.HandleChokeMessage | src/PeerConnection.cpp:417-422 | the flag is that of the last choke or unchoke message |
| Peers.PeerConnection.StopRun | src/PeerConnection.cpp:619-621 | the bitfield is counted out exactly if a bitfield message was counted in |
| Peers.PeerConnection.HandlePieceMessage | src/PeerConnection.cpp:453-479 | the block goes to the piece manager and the first pending request for exactly that block is settled; a short payload changes nothing |
| Peers.PeerConnection.HandleHaveMessage | src/PeerConnection.cpp:437-443 | the bit at the big-endian index is set, that piece counted once more in 16 bits, and the list changed as the search changes it |
| Peers.PeerConnection.HandleBitfieldMessage | src/PeerConnection.cpp:445-451 | the bitfield becomes the payload's bits and is counted in |
| Endgame.EntryIsExact | src/PieceManager.cpp:160-186 | on entry the pieces in progress are all the incomplete ones and the list holds exactly the missing blocks, each once |
| Endgame.ArrivalReceives | src/PieceManager.cpp:53-98 | without a failed check an arrival marks its own block received and forgets no other |
| Endgame.StepKeepsCovered | src/PieceManager.cpp:53-189 | the list stays sufficient over every step that throws no piece away |
| Endgame.CoveredIffNoMismatch | src/PieceManager.cpp:80-97 | and over no other step: it stays sufficient if and only if no piece fails its check |
| Endgame.CoveredListsMissing | src/PieceManager.cpp:173-184 | a missing block of a covered state is on the list |
| Endgame.EntryTracksAll | src/PeerConnection.cpp:190-201 | a peer entering the endgame loop has every listed block of its pieces in its window or received |
| Endgame.StepTracksAll | src/PeerConnection.cpp:102-188 | no refresh, load, arrival or other peer's step makes it lose one |
| Endgame.NoBlockIsLost | src/PeerConnection.cpp:102-251 | so over any interleaving every block of the peer is received, remaining or pending, and the list still covers what is missing |
| Endgame.ListSufficesIff | src/PieceManager.cpp:53-189 | over every gated run, the list is sufficient at the end if and only if no piece failed its check after endgame mode began |
| Endgame.EnteringPeerHoldsAll | src/PeerConnection.cpp:190-251 | from the start, over any run without such a failure: a peer may enter at any state, and over any further interleaving every missing block of its pieces is in its window |
| EndgameTurns.LateStaysUntilReceived | src/PeerConnection.cpp:156-184 | over any interleaving, late requests whose blocks are not received by its end are all still pending |
| EndgameTurns.TenLateAskNothing | src/PeerConnection.cpp:203-231 | ten of them, and no load of the interleaving asks for anything |
| EndgameTurns.TwoLoadsFill | src/PeerConnection.cpp:203-231 | two loads further apart than the timeout fill the window with ten requests that are then late |
| EndgameTurns.EachIsAskedAgain | src/PeerConnection.cpp:138-184 | a refresh at which every request is recent, and a load with room, ask for each unreceived block of the window again |
| EndgameTurns.AskedAgainForEver | src/PeerConnection.cpp:203-231 | up to five blocks that do not come are asked for again in every turn, however many turns there are |
| Endgame.MismatchDrops | src/PieceManager.cpp:80-97 | a failed check leaves the piece incomplete and no longer in progress |
| Endgame.DroppedStaysDropped | src/PieceManager.cpp:57-59 | once in endgame mode, over every run in which asks happen only before it, the piece stays out whatever arrives and the download never completes |
| EndgameEntry.EndgameBeginsIff | src/PieceManager.cpp:160-171 | a refused request begins endgame mode if and only if pieces are left, all of them are in progress, every missing block was asked for and no received block came unasked |
| EndgameEntry.StepKeepsStray | src/Piece.cpp:40-42 | while a piece with a block that came unasked is in progress, no step begins endgame mode and the piece keeps that block |
| EndgameEntry.RunKeepsStray | src/Piece.cpp:40-42 | nor does any run over which the piece stays in progress |
| EndgameEntry.UnaskedBlockHoldsEndgameBack | src/PieceManager.cpp:160-171 | in every torrent and for every piece of two blocks or more, if the others pass their checks, there is a reachable state where all is asked for or received and a refused request still changes nothing |
| EndgameEntry.MismatchInEndgameIsReachable | src/PieceManager.cpp:80-97 | in every torrent and for every piece, bad data of the piece, the others passing, loses it for good in a state that a gated run reaches |
| EndgameEntry.SomeCanBeLost | src/PieceManager.cpp:80-97 | such torrents exist |
| Availability.HaveIsNext | src/PeerConnection.cpp:437-443 | what handling a have message does to the counters and the bits is that step of the swarm |
| Availability.BitfieldIsNext | src/PeerConnection.cpp:445-451 | so for a bitfield message |
| Availability.StopIsNext | src/PeerConnection.cpp:619-621 | so for a run that ends |
| Availability.StartIsNext | src/PeerConnection.cpp:603 | so for a run that starts with the bits the connection still holds |
| Availability.AccurateIffDisciplined | src/PeerConnection.cpp:437-451 | a message keeps every counter equal to the number of owners if and only if it follows the discipline |
| Availability.HistoryStaysAccurate | src/PeerConnection.cpp:617-621 | so do whole histories, also after peers have left |
| Availability.FreshSwarmAccurate | src/PieceManager.hpp:46 | the counters are accurate before any peer joins |
| Availability.HaveWithoutBitfieldLeaks | src/PeerConnection.cpp:619-621 | a peer that announces a piece without a bitfield message leaves it counted forever |
| Bencode.Find | src/Bencode.cpp:24 | the first delimiter from a position on, or none if there is none |
| Bencode.ItemsStep | src/Bencode.cpp:77-80 | one turn of the list loop extends the items read so far, or the whole list is refused |
| Bencode.PairsStep | src/Bencode.cpp:96-102 | one turn of the dictionary loop inserts one pair, a key that is not a string or a bad value refuses the whole |
| Bencode.Stream.GetLine | src/Bencode.cpp:24 | reads up to the delimiter and consumes it |
| Bencode.Stream.ParseString | src/Bencode.cpp:17-46 | a length up to 2^27, then that many bytes, else refused |
| Bencode.Stream.ParseInt | src/Bencode.cpp:48-70 | a signed 64-bit decimal up to the closing letter, else refused |
| Bencode.Stream.ParseList | src/Bencode.cpp:72-89 | the loop reads what the grammar reads, with the list's span |
| Bencode.Stream.ParseDict | src/Bencode.cpp:91-111 | the loop reads what the grammar reads, the first value of a key staying |
| Bencode.Stream.Parse | src/Bencode.cpp:113-133 | the value at the position by its first letter, the position after it, or a refusal |
| Bencode.Stream.BDecode | src/Bencode.cpp:136-141 | one value and nothing left over |
| BencodeLaws.ItemRelocates | src/Bencode.cpp:113-133 | what is decoded depends on the consumed bytes only: elsewhere they give the same value with shifted offsets |
| BencodeLaws.PrefixFree | src/Bencode.cpp:136-141 | no accepted input is a proper prefix of another |
| BencodeLaws.InsertAllInOrder | src/Bencode.cpp:101 | dropping later duplicates of a key leaves the remaining spans in order |
| BencodeLaws.ChildrenInOrder | src/Bencode.cpp:72-111 | child spans are disjoint, in parse order and strictly inside the parent's |
| BencodeLaws.NestedDecodesAlone | src/Bencode.cpp:17-134 | at any depth, the bytes of an item's span decoded alone give that item with offsets from its own start |
| RoundTrip.DecimalReads | src/Bencode.cpp:60 | the decimal text of a number reads back as it |
| RoundTrip.NumberReads | src/Bencode.cpp:57-70 | a number's text is accepted exactly when it fits 64 bits, and gives that number |
| RoundTrip.Trip | src/Bencode.cpp:113-141 | decoding the encoding of an encodable value gives it back and consumes all input |
| RoundTrip.DecodedIsEncodable | src/Bencode.cpp:17-134 | whatever is decoded has 64-bit integers, strings within the limit and distinct keys |
| RoundTrip.RoundTripIffEncodable | src/Bencode.cpp:113-141 | decoding inverts encoding on exactly those values |
| RoundTrip.EncodingsArePrefixFree | src/Bencode.cpp:136-141 | encodable values with one encoding a prefix of the other are the same value |
| Metadata.Lookup | src/TorrentMetadata.cpp:19-39 | found exactly when the key is there, with a value of that key |
| Metadata.FirstValueStays | src/Bencode.cpp:101 | looking a key up in a dictionary as it is built finds the first value given for that key, later ones being ignored |
| Metadata.ParseFileEntry | src/TorrentMetadata.cpp:46-59 | accepted exactly when length and path have the right types; gives the length as 64-bit unsigned and the path components |
| Metadata.ParseFiles | src/TorrentMetadata.cpp:80-94 | accepted exactly when every entry is; each file starts at the 64-bit sum of the lengths before it |
| Metadata.ParseInfo | src/TorrentMetadata.cpp:61-100 | accepted exactly when the required fields are there with the right types; "length" is looked at before "files" |
| Metadata.ContiguousIffNoWrap | src/TorrentMetadata.cpp:83-94 | the parsed layout is contiguous if and only if everything before the last file ends below 2^64 |
| Metadata.WrappingLayout | src/TorrentMetadata.cpp:83-94 | the lengths -1, 1 and 1 are accepted and their layout is not contiguous |
| Metadata.GetInfoHash | src/TorrentMetadata.cpp:102-114 | the digest is taken of exactly the bytes of the item's span |
| Metadata.FieldDecodesAlone | src/TorrentMetadata.cpp:102-114 | a field's span lies in the file and its bytes decoded alone give that field |
| Metadata.FieldBytesAreItsEncoding | src/TorrentMetadata.cpp:102-114 | in an encoded dictionary the bytes of a field's span are exactly the encoding of its value |
| Metadata.ParseAnnounceList | src/TorrentMetadata.cpp:116-154 | the groups of the announce list, or none if it is missing or malformed |
| Metadata.ParseTorrentFile | src/TorrentMetadata.cpp:140-179 | accepted exactly when the file is valid; announce, announce list and info are those of the file and the info-hash is the digest of the bytes of the "info" field as they stand in the file |
| Client.StartsIff | src/TorrentClient.cpp:31-43 | for every accepted torrent: the configuration built from it is valid, its layout contiguous and its size exact if and only if the low 32 bits of the piece length are from 1 to 2^30, the files fit 64 bits and they are no longer than the pieces with a digest |
| Client.EnoughPieces | src/PieceManager.hpp:36 | the number of pieces has a digest each exactly if the pieces with a digest hold the total |
| Client.ZeroPieceLength | src/TorrentClient.cpp:36 | piece lengths that are multiples of 2^32 are accepted and become a piece size of zero |
| Client.NewManager | src/TorrentClient.cpp:33-43 | on a torrent that can be started the file manager and the piece manager are built, the latter in its initial state: piece size modulo 2^32, total of the lengths, and byte k of the digests is character k of the string of digests |
| PlainEngine.OkIs | src/PieceManager.hpp:26-51 | a configuration is one with a piece size from 1 to 2^30 and twenty bytes of digest for every piece |
| PlainEngine.StartIs | src/PieceManager.hpp:26-51 | at the start nothing is completed or in progress, the counters are zero, the list is in index order and the output zeros |
| PlainEngine.CapIs | src/PieceManager.hpp:33 | the pieces that may be in progress are 512 MiB, rounded up to whole pieces |
| PlainEngine.ArrivalPossibleIff | src/PieceManager.cpp:53-66 | which arrivals the model handles: of a piece in progress, those that start inside it and, if the block is missing, end inside it |
| PlainEngine.IgnoredArrival | src/PieceManager.cpp:57-61 | a block of a piece not in progress, or one that is there already, changes nothing |
| PlainEngine.PartialArrival | src/Piece.cpp:9-28 | a block missing beside others: exactly its bytes are copied and exactly it is no longer missing |
| PlainEngine.LastArrival | src/PieceManager.cpp:68-97 | the last missing block: the piece is completed if and only if the digest of its data is the twenty bytes from 20 times its index on, then and only then its bytes are written at the 32-bit offset, and it leaves the map in either case |
| PlainEngine.ThrownAwayIff | src/PieceManager.cpp:80-84 | the steps called failed checks are exactly those after which some piece is neither in progress nor completed |
| PlainEngine.DigestsOnDisk | src/PieceManager.cpp:53-98 | in every reachable state of a torrent whose offsets fit, the digest of the bytes in each completed piece's place is its twenty recorded bytes; at the end every byte belongs to one |
| PlainEngine.BytesStay | src/PieceManager.cpp:53-98 | over any run of a torrent whose offsets fit, a completed piece stays completed and each of its bytes in the output stays |
| PlainEngine.RefusedIff | src/PieceManager.cpp:115-189 | a request is refused if and only if all is completed or no piece of the peer is incomplete and either misses a block that may be asked for or is new with less than 512 MiB in progress |
| PlainEngine.RoomIsUsed | src/PieceManager.cpp:135-145 | with less than 512 MiB in progress a peer with an incomplete piece not in progress is always granted a block |
| PlainEngine.GrantedIs | src/PieceManager.cpp:115-158 | the first grantable piece in the list gives its first block that may be asked for, whole, and only that block's request time changes |
| PlainEngine.RarestIs | src/PieceManager.cpp:122-158 | with the list by rarity, or sorted now, no grantable piece has a smaller counter |
| PlainEngine.SameBlockApart | src/Piece.cpp:30-53 | a block whose piece stays in progress is granted again only at a reading more than the timeout after the stamp |
| PlainEngine.EndgameBegins | src/PieceManager.cpp:160-186 | a refusal begins endgame mode if and only if pieces are left, all in progress with a request time on every block; the list then names each missing block once |
| PlainEngine.DownloadedIs | src/PieceManager.hpp:127-129 | the reported number is the number of completed pieces times the piece size |
| PlainEngine.VerifiedBytesAre | src/PieceManager.hpp:127-129 | the verified bytes are the bytes of the torrent that lie in completed pieces |
| PlainEngine.PeerCounts | src/PieceManager.cpp:14-24 | exactly the counters of the set bits go up, or down, by one in 16 bits, and the list is marked stale if and only if one is set |
| PlainEngine.HaveCounts | src/PieceManager.cpp:26-51 | one counter goes up in 16 bits; what the search compares with, where it ends and which two entries change places |
| PlainPeer.SeventeenBytes | src/TorrentMessage.cpp:149-199 | a request is 0 0 0 13 6, a cancel 0 0 0 13 8, and then piece, offset and size, each most significant byte first |
| PlainPeer.PieceMessageIs | src/TorrentMessage.cpp:91-113 | refused exactly below eight bytes; otherwise index, offset and the rest |
| PlainPeer.BitIs | src/PeerConnection.cpp:446-448 | bit k of a byte is the one worth 2^(7 - k) |
| PlainPeer.ExpiresIs | src/PeerConnection.cpp:289 | a request is given up on exactly while it is at most 5000 ms old |
| PlainPeer.KeptIs | src/PeerConnection.cpp:286-299 | before endgame mode a refresh keeps only requests older than 5000 ms and gives up only on others |
| PlainPeer.RefreshIs | src/PeerConnection.cpp:138-188 | after an endgame refresh no block of a completed piece or received block of one in progress is left in the window, every other is there as often as before, and exactly those pending are cancelled |
| PlainPeer.LoadIs | src/PeerConnection.cpp:102-136 | a load moves as many blocks as it may and there are, and keeps what was pending |
| PlainPeer.ShareIs | src/PeerConnection.cpp:190-191 | a peer enters the endgame loop with exactly the listed blocks of its pieces |
| PlainPeer.EachMissingIsHeld | src/PeerConnection.cpp:190-251 | after any run and interleaving without a failed check in endgame mode, each missing block of an incomplete piece the peer has is in its window |
| PlainPeer.InOrderIs | src/PieceManager.cpp:100-113 | what is filtered from the list stands in it at increasing positions |
| PlainPeer.AnswerIs | src/PeerConnection.cpp:469-478 | an answer settles the first request for exactly its block, the last one taking its place |
| Peers.NumbersAre | src/PeerConnection.cpp:314-319 | with at most five requests kept five blocks are granted, or fewer and then one refusal; with more no question is put |
| Turns.SettledCountIs | src/PeerConnection.cpp:469-478 | the answers of a run are the steps that settle a request |
| Availability.CountersAre | src/PeerConnection.cpp:617-621 | after every disciplined history from the start each counter is the number of peers that sent a bitfield and announced the piece, modulo 2^16 |
| Language.NumberIff | src/Bencode.cpp:57-70 | a number is read from a text if and only if it is an optional minus and one or more digits with a value in 64 bits |
| Language.AcceptedIff | src/Bencode.cpp:17-141 | the decoder accepts a text as a value if and only if the text says it: integers, strings with their length, lists, dictionaries in which the first value of a key stays |
| TorrentText.TorrentIff | src/TorrentMetadata.cpp:61-179 | accepted if and only if the text says a dictionary with a string announce and a dictionary info of name, piece length, pieces and length or files |
| TorrentText.TorrentSays | src/TorrentMetadata.cpp:46-154 | announce, announce list, name, sizes, offsets, paths and digests are those the text says |
| TorrentText.HashIsOfInfo | src/TorrentMetadata.cpp:102-114 | the info-hash is the digest of a part of the text that says the info dictionary |

## Left out

- Download.EndToEnd: holds for torrents whose piece offsets are below 2^32; WrappedOffsets.SoundIffOffsetsFit
  says that it holds for no others.
- Download.TileWrittenIffOffsetFits: is about the written piece's own range; WrappedOffsets.EveryTileAfterWrite
  is about every piece's.
- Endgame.NoBlockIsLost: covers interleavings in which no piece fails its check; Endgame.CoveredIffNoMismatch
  and Endgame.DroppedStaysDropped say what happens otherwise.
- Endgame.EntryIsExact: the listed blocks carry the full block size, so for a short last block the size in the
  list is not the size of the block; the list is exact over piece and offset.
- Manager.PieceManager.AddAvailablePiece: a counter read past the end of the array is a parameter of the call,
  of any value; the source leaves it undefined.
- Manager.PieceManager.ReceiveBlock: needs a block that is still missing to lie inside its piece, which the source
  leaves to the peer.
- Pieces.Piece.ReceiveBlock: needs the same.
- Peers.PeerConnection.HandlePieceMessage: needs the same of a block of a piece in progress.
- Peers.PeerConnection.HandleHaveMessage: needs the announced index to be inside the torrent.
- Files.FileManager.constructor: needs the contiguous layout that the writer relies on; Metadata.ContiguousIffNoWrap
  says exactly which parsed layouts are.
- Peers.PeerConnection.HandleBitfieldMessage: needs a payload with a bit for every piece.
- Pools.MemoryPool.Deallocate: needs a live block; freeing one twice is undefined in the source.
- Peers.PeerConnection.RefreshPendingRequests: the readings of one loop lie between two given times; that later ones
  are not earlier is not used.
- Peers.PeerConnection.EndgameRefreshPendingRequests: says which blocks are left and how often, not in which order;
  the remaining ones are in random order from the start.
- Peers.PeerConnection.StartRun: the flags for our own choking and for interest, and the connection state, are not
  modelled.
- Peers.PeerConnection.EndgameTurn: is the load of one turn; the check for choking before it is the same as in
  the other loop.
- Pieces.Piece.constructor: needs at most 65536 blocks, the width of the block indices.
- Manager.PieceManager.constructor: needs the same of the piece size, and the bound on the digests given below.
- Manager.PieceManager.SortByAvailability: an insertion sort stands for the library's sort; every result about the
  order holds for any ordered permutation.
- The recorded digests are at least 20 bytes per piece, since with fewer the source reads past their end, and fewer
  than 2^32 bytes in all, since the place of a piece's digest is the 32-bit product of its index and 20
  (`src/PieceManager.cpp:77`).
- Client.NewManager: where the source would divide by zero or read past the digests, the method asks for a torrent
  that starts.
- Files are sequences of fixed length that start as zeros; opening, seeking, flushing and I/O errors are not modelled.
- Shuffling the endgame blocks is any permutation; the map of pieces in progress and a decoded dictionary have no
  order that a result depends on.
- Sockets, coroutines, timers, the handshake, interested and keep-alive messages, and a peer's failure states.
- The threads and reconnection policy of the peer manager; a peer is a source of steps in any order.
- The trackers, the client's threads, the rotation of the announce list, argument parsing, logging and the progress bar.
- SHA-1 itself: the digest is an arbitrary function.
- Joining path components into a file system path: a file's path is the list of its components.
- Exception types: a refused input is one result without a value, whatever the message.
- The depth of recursion of the decoder and the size of memory.
- That a download finishes: the code does not guarantee it.
