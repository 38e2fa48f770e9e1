# BitRev in Dafny

BitRev is a BitTorrent client written in Rust. This project models the parts of it that keep
state or parse bytes, and proves what they promise for every input and every run:

- **Download state** (`PieceTable`, `BlockRequests`, `DownloadState`, `StateRuns`,
  `SequentialDrain`, `Picker`, `Assembly`, `Availability`, `Bitfield`): the state of one torrent
  that all its peer tasks share. Every method of `TorrentDownloadedState` is one atomic step and
  keeps one invariant, so the invariant holds in every state of every run: the verified count is
  the number of downloaded flags, every block asked for has one or two different requesters, no
  offset of a piece is stored twice, and the priority caches equal their direct definitions. The
  availability counts follow the bitfields of the connected peers through every run.
- **Geometry** (`Geometry`, `Priority`, `FileProgress`, `PieceSizes`): how pieces map onto files,
  specified against one flat byte string. The number of piece hashes is never checked against the
  length, so it is free in the model.
- **Torrent files** (`Bencode`, `DepthGuard`, `InfoDict`, `InfoEntries`): the recursive skipper
  against a grammar, the linear depth guard against the skipper, and the splice that must not
  change the hashed `info` bytes nor any other entry.
- **Queue** (`SlotPlan`, `QueueSession`): slot allocation under three caps, and the queue order.
- **Uploads** (`Upload`): requests, rejects, cancels and chokes as a state machine with a
  conservation law (Reject Request of BEP-0006).
- **Codecs and tables** (`Message`, `PercentCode`, `HashText`, `SocketText`, `Magnet`,
  `MagnetText`, `IpFilter`, `Cidr`, `RateLimiter`): peer message framing (BEP-0003), magnet links (BEP-0009), the address
  blocklist and the token bucket.

Code that updates things in place is a class or a method with loops, proved equal to a
specification function; the promises are then lemmas about that function. Time, randomness, the
output of the serializer, UTF-8 decoding, socket address printing and disk reads are parameters
or arbitrary choices.

`dafny verify dfyconfig.toml` verifies the project.

## What turned out false, and when it holds

- "Each availability count is the number of connected peers that have the piece" fails after a
  `have` that the stored bitfield has no room for; new peers start with an empty bitfield. In
  every run each count is the number of holders plus one for every such uncovered `have`, as long
  as that sum fits 16 bits, so the counts agree if and only if there was none
  (`Availability.CountsAreHolders`, `Availability.RunAgreesIff`, `Availability.EarlyHaveLeaks`;
  for one step `Availability.HaveAgreesIff`).
- "A piece is unwanted exactly when every file it overlaps is skipped" fails for a piece past the
  end of the torrent, which a hash too many adds to the table: it overlaps no file and is wanted
  (`Priority.ExtraHashIsWanted`). The exact condition adds that the piece starts inside the torrent
  (`Priority.SkippedIff`).
- "The listed first and last pieces are in range and wanted" fails when hashes are missing
  (`Priority.MissingHashIsListed`), and for piece numbers past 32 bits, which wrap
  (`Priority.WrappedEdgeIsSkipped`). The list is in range if and only if the 32-bit numbers of all
  edges are (`Priority.AllBelowIff`); while numbers fit 32 bits, that is, if and only if no wanted
  file ends past the table (`Priority.InRangeIff`).
- "With all pieces held a file is complete" fails when hashes are missing; it holds if and only if
  the file ends in a piece with a hash (`FileProgress.FileHaveBytes`).
- "The sizes in the piece table add up to the length" fails when a piece is too large for 32 bits,
  and only then (`PieceSizes.AllBytesIff`).
- "A piece is unwanted exactly when every file with a byte in it is skipped" fails when an empty
  file lies strictly inside the piece (`Priority.EmptyFileKeepsPieceWanted`); the exact
  condition names those files too (`Priority.SkippedInBytes`).
- "A covered piece is tiled" fails for a piece of exactly 2^32 - 1 bytes, because
  `piece_chunks_cover` saturates there: 65535 blocks of 65537 bytes with one byte too many in the
  last one are accepted (`Assembly.OverlongIsCovered`). For every 32-bit length the chunks tile
  the piece if and only if the test succeeds and no chunk ends past 2^32 - 1
  (`Assembly.TilesIff`).
- Printing a magnet and parsing it again gives the same magnet if and only if no text in it is
  empty and every IPv6 peer has no flow label and at most a one-digit scope identifier: the flow
  label is not printed, and the percent sign before a longer scope is decoded as an escape
  (`Magnet.RoundTripIff`, `SocketText.ComesBackIff`, `Magnet.RoundTripCanFail`).
- The file written around an `info` value reads back as those bytes if and only if they are one
  complete bencode value (`InfoDict.InfoBytesPreserved`).

## Model

| member | source | states |
|---|---|---|
| DownloadState.TorrentDownloadedState.constructor | crates/bit_rev/src/peer_connection.rs:114-140 | A new state over any table satisfies the invariant; the verified count is the number of flags already set, and nobody is counted |
| DownloadState.TorrentDownloadedState.MarkDownloaded | crates/bit_rev/src/peer_connection.rs:418-425 | Sets one flag if the index exists; the verified count still equals the number of flags |
| DownloadState.TorrentDownloadedState.MarkAllDownloaded | crates/bit_rev/src/peer_connection.rs:409-416 | Sets every flag and touches nothing else; the count follows |
| DownloadState.TorrentDownloadedState.RemoveDownloaded | crates/bit_rev/src/peer_connection.rs:722-732 | Clears flag, chunks and claim of one piece; the decrement never saturates |
| DownloadState.TorrentDownloadedState.ClearAllDownloaded | crates/bit_rev/src/peer_connection.rs:375-379 | Clears flag, chunks and claim of every piece and keeps reservations |
| DownloadState.TorrentDownloadedState.HaveCount | crates/bit_rev/src/peer_connection.rs:368-373 | The counting loop and the stored verified count agree in every state |
| DownloadState.TorrentDownloadedState.ByteCounts | crates/bit_rev/src/peer_connection.rs:340-390 | Bytes left plus wanted bytes held equal wanted bytes in total |
| DownloadState.TorrentDownloadedState.Complete | crates/bit_rev/src/peer_connection.rs:333-338 | Complete if and only if the table is not empty and every piece whose priority is not skip is downloaded |
| DownloadState.TorrentDownloadedState.Endgame | crates/bit_rev/src/peer_connection.rs:431-447 | The two counters agree if and only if something is missing and all that is missing is reserved |
| DownloadState.TorrentDownloadedState.OurBitfield | crates/bit_rev/src/peer_connection.rs:636-644 | A bit is set exactly for the downloaded pieces, and for no index past the table |
| DownloadState.TorrentDownloadedState.ApplyBitfield | crates/bit_rev/src/resume.rs:291-297 | Sets the flags of the pieces in the bitfield, of any length, and keeps all others |
| DownloadState.ResumeRoundTrip | crates/bit_rev/src/resume.rs:291-379 | Applying a saved bitfield to a fresh state of the same size restores the same flags and the same verified count |
| DownloadState.FilesOfPieces | crates/bit_rev/src/peer_connection.rs:148-155 | The stored file list of each piece is the list of files that overlap it |
| DownloadState.TorrentDownloadedState.RecomputePiecePriority | crates/bit_rev/src/peer_connection.rs:223-248 | The cached priorities equal `piece_priority` of the current file priorities |
| DownloadState.TorrentDownloadedState.RefreshFirstLast | crates/bit_rev/src/peer_connection.rs:250-276 | The cached list equals `first_last_wanted_pieces` of the current file priorities |
| DownloadState.TorrentDownloadedState.UnwantSkipped | crates/bit_rev/src/peer_connection.rs:285-323 | Clears exactly the unwanted missing pieces, drops exactly their requests, and its cancel list has no duplicate and holds exactly the dropped requests and the grid blocks of the reserving peer |
| DownloadState.TorrentDownloadedState.ApplyFilePriorities | crates/bit_rev/src/peer_connection.rs:189-208 | From any sound state, whatever the caches held, the caches agree with their definitions again; missing priorities become normal; the effect on pieces, requests and cancels is exact |
| DownloadState.TorrentDownloadedState.SetFilePriority | crates/bit_rev/src/peer_connection.rs:210-221 | Refused without any change exactly for an unknown file; otherwise one priority changes, and the effect on pieces, requests and cancels is exact |
| DownloadState.TorrentDownloadedState.InstallContent | crates/bit_rev/src/peer_connection.rs:142-170 | After installing a layout, with any number of hashes, the caches agree with it; the effect on pieces and requests is exact, and the cancel list is exact and has no duplicate |
| DownloadState.TorrentDownloadedState.UnwantedIff | crates/bit_rev/src/peer_connection.rs:427-429 | In every state with content, a piece is unwanted if and only if it starts inside the torrent and every file it overlaps is skipped |
| DownloadState.TorrentDownloadedState.EdgesAreDistinct | crates/bit_rev/src/peer_connection.rs:250-276 | In every state the cached first and last pieces are distinct |
| DownloadState.TorrentDownloadedState.EdgesInRangeIff | crates/bit_rev/src/peer_connection.rs:250-276 | In every state whose piece numbers fit 32 bits they are in range if and only if no wanted file ends past the table, and those in range are wanted |
| DownloadState.TorrentDownloadedState.ListCandidates | crates/bit_rev/src/peer_connection.rs:449-461 | Lists the missing, wanted, unreserved pieces the peer has, in ascending order |
| DownloadState.TorrentDownloadedState.TryReservePiece | crates/bit_rev/src/peer_connection.rs:686-697 | Succeeds exactly on a missing, wanted, unreserved piece, and then reserves that piece only |
| DownloadState.TopBand | crates/bit_rev/src/peer_connection.rs:470-477 | Keeps exactly the candidates of one priority, in order: High if any candidate is High, else Normal if any is, else Low |
| DownloadState.TorrentDownloadedState.Pick | crates/bit_rev/src/peer_connection.rs:463-510 | Nothing if and only if there is no candidate; otherwise exactly one candidate becomes reserved: in sequential mode the first listed or preferred, else the lowest; otherwise a High one if any candidate is High and a High or Normal one if any is Normal, and past bootstrap the first preferred or a rarest one |
| DownloadState.TorrentDownloadedState.AssignBlock | crates/bit_rev/src/peer_connection.rs:512-536 | Accepted exactly when the peer has not asked and fewer than two have; every block keeps one or two different requesters |
| DownloadState.TorrentDownloadedState.NoteBlockReceived | crates/bit_rev/src/peer_connection.rs:597-607 | Returns exactly the other requesters, each once, and forgets the block |
| DownloadState.TorrentDownloadedState.UnassignPeerBlocks | crates/bit_rev/src/peer_connection.rs:609-615 | Exactly the requests of the peer disappear |
| DownloadState.TorrentDownloadedState.EndgameBlocks | crates/bit_rev/src/peer_connection.rs:538-595 | Every block returned is an open grid block of a busy piece of the peer, none twice; below the limit, all of them are returned |
| DownloadState.TorrentDownloadedState.AssignOffers | crates/bit_rev/src/peer_connection.rs:512-595 | Every block that endgame offers to a peer is then accepted when assigned in turn |
| DownloadState.TorrentDownloadedState.SetChunks | crates/bit_rev/src/peer_connection.rs:795-813 | A block is stored exactly when its piece exists and its offset is new; the bytes of a duplicate are counted |
| DownloadState.TorrentDownloadedState.SetDownloadedIfAllChunks | crates/bit_rev/src/peer_connection.rs:828-846 | Succeeds if and only if the flag was clear and the chunks cover the piece; the chunks then tile it exactly if and only if none ends past 2^32 - 1, which needs no check for a shorter piece |
| DownloadState.TorrentDownloadedState.ClearPieceChunks | crates/bit_rev/src/peer_connection.rs:734-738 | Forgets the chunks of one piece and nothing else |
| DownloadState.TorrentDownloadedState.ClaimWrite | crates/bit_rev/src/peer_connection.rs:741-745 | Won exactly when the piece exists and nobody holds the claim |
| DownloadState.TorrentDownloadedState.ReleasePiece | crates/bit_rev/src/peer_connection.rs:747-754 | Gives up the reservation, and clears the chunks exactly of a piece that is not downloaded |
| DownloadState.TorrentDownloadedState.ReleaseReservation | crates/bit_rev/src/peer_connection.rs:779-793 | Succeeds exactly for the holder, and changes nothing otherwise |
| DownloadState.TorrentDownloadedState.ReleasePeerReservations | crates/bit_rev/src/peer_connection.rs:765-777 | Releases exactly the pieces the peer held |
| DownloadState.TorrentDownloadedState.RemoveReserved | crates/bit_rev/src/peer_connection.rs:756-759 | Afterwards no piece is reserved for the peer and no block is asked of it; every other reservation and request stands |
| DownloadState.TorrentDownloadedState.SnubRelease | crates/bit_rev/src/peer_connection.rs:761-763 | Only the reservations of the peer go; chunks and flags stay |
| DownloadState.TorrentDownloadedState.ApplyPeerBitfield | crates/bit_rev/src/peer_connection.rs:617-620 | With at most 65535 peers, counts that agree with the stored bitfields of the connected peers agree again after one bitfield is replaced |
| DownloadState.TorrentDownloadedState.ApplyPeerHave | crates/bit_rev/src/peer_connection.rs:622-630 | A known piece changes nothing; after a new one the counts agree with the stored bitfields if and only if the piece is outside the table or the bitfield has room for it |
| DownloadState.TorrentDownloadedState.RemovePeerAvailability | crates/bit_rev/src/peer_connection.rs:632-634 | When a peer goes, counts that agreed with the stored bitfields agree with those of the peers that stay |
| DownloadState.DeliverBlocks | crates/bit_rev/src/peer_connection.rs:795-900 | Delivering every grid block of a piece, in any order, with repeats and from any peers, completes it once, and the assembled bytes are the original ones |
| StateRuns.Run | crates/bit_rev/src/peer_connection.rs:109-847 | Every sequence of calls, installing any layout included, keeps the invariant; a piece is reported complete again only after a call took its flag back, and claimed again only after a call may have dropped the claim; a flag that is new was reported complete or set outright, and a claim that is new was granted; each count exceeds the number of holders by the uncovered haves of the run, so the counts agree if and only if there were none |
| StateRuns.DoPeerStep | crates/bit_rev/src/peer_connection.rs:2003-2067 | Each message of a peer, and its coming and going, is one step of the swarm on the counts of the state; a bitfield stores its bits, have-all every piece of the torrent, have-none nothing, and a have one piece more if the stored bitfield has a bit for it |
| Availability.EachMessageStores | crates/bit_rev/src/peer_connection.rs:2003-2067 | What each message leaves stored for its peer, piece by piece; a peer that is new or gone has nothing stored |
| Availability.StoredByRun | crates/bit_rev/src/peer_connection.rs:2003-2067 | In every run the pieces stored for a connected peer are those of its last bitfield, have-all or have-none and of the haves since then that the bitfield has bits for |
| Availability.NothingStoredYet | crates/bit_rev/src/peer_connection.rs:2003-2067 | Before its first bitfield, have-all or have-none nothing is stored for a peer, whatever haves it sends |
| SequentialDrain.Drain | crates/bit_rev/src/peer_connection.rs:463-510 | From a fresh sequential state with any layout and a full peer, picking and marking stops after handing out first the wanted pieces of the first/last list and then the other wanted pieces in ascending order; then exactly the wanted pieces are downloaded |
| SequentialDrain.DrainIsComplete | crates/bit_rev/src/peer_connection.rs:250-276 | That order names every wanted piece exactly once and nothing else |
| SequentialDrain.KeptKeepsChoice | crates/bit_rev/src/peer_connection.rs:478-489 | Listed pieces that the table does not have or that are skipped never change the choice |
| PieceTable.ExactlyOnePhase | crates/bit_rev/src/peer_connection.rs:333-461 | A table that is not empty is complete, in endgame, or has a piece for a full peer: exactly one of the three |
| PieceTable.BytesAddUp | crates/bit_rev/src/peer_connection.rs:340-390 | Left and held wanted bytes add up to the total for every table |
| PieceTable.NoBytesIff | crates/bit_rev/src/peer_connection.rs:340-390 | No bytes are left if and only if every wanted piece is downloaded or empty; no bytes are held if and only if no wanted piece with bytes is downloaded |
| PieceTable.ArrivalMovesBytes | crates/bit_rev/src/peer_connection.rs:340-390 | A piece that arrives moves its bytes from left to held exactly when it is wanted, and the total stays |
| PieceTable.PickByName | crates/bit_rev/src/peer_connection.rs:463-510 | A piece is picked if and only if one is missing, wanted, unreserved and at the peer; out of order it is High if any such piece is, else Normal if any is, else Low |
| PieceTable.PickInOrder | crates/bit_rev/src/peer_connection.rs:478-491 | In sequential mode the first free piece of the first/last list and the preferences, else the lowest free one |
| PieceTable.PickRarest | crates/bit_rev/src/peer_connection.rs:489-504 | Past bootstrap, among the free pieces of the picked priority, the first preferred one, else one that no other has fewer peers for |
| PieceTable.CandidatesMembers | crates/bit_rev/src/peer_connection.rs:449-461 | The candidate list holds exactly the candidates |
| PieceTable.AmongKeepsChoice | crates/bit_rev/src/peer_connection.rs:478-489 | Filtering the first/last list by the candidates never changes which preferred piece is chosen |
| BlockRequests.UnassignKeeps | crates/bit_rev/src/peer_connection.rs:609-615 | Removing a peer keeps one or two different requesters for every block that stays, and loses no other request |
| BlockRequests.OffersMembers | crates/bit_rev/src/peer_connection.rs:538-595 | The offers are exactly the open grid blocks of the busy pieces, each once |
| BlockRequests.OfferInFull | crates/bit_rev/src/peer_connection.rs:538-595 | An offer in full: a missing wanted reserved piece of the peer, a 16 KiB grid block of it that has not come, and nobody or one other aged requester |
| BlockRequests.CancelInFull | crates/bit_rev/src/peer_connection.rs:285-323 | A cancel in full: a skipped piece that is not downloaded, and a peer that asked for the block or reserved the piece |
| BlockRequests.PieceBlocks | crates/bit_rev/src/peer_connection.rs:565-592 | The inner loop with its early exit appends the offers of a piece, cut at the limit |
| BlockRequests.OfferedBlocks | crates/bit_rev/src/peer_connection.rs:548-594 | The outer loop with its early exit returns the first offers, up to the limit |
| BlockRequests.DropRequests | crates/bit_rev/src/peer_connection.rs:296-305 | Visiting the requests in any order lists every request for the piece once |
| BlockRequests.CancelGrid | crates/bit_rev/src/peer_connection.rs:306-320 | Adds exactly the grid blocks of the piece that are not listed yet |
| BlockRequests.NothingLeftBehind | crates/bit_rev/src/peer_connection.rs:285-323 | After a priority change an unwanted missing piece has no reservation, chunk, claim or request, and every other piece is untouched |
| Picker.SelectPiece | crates/bit_rev/src/picker.rs:75-107 | None exactly without candidates; past bootstrap the first preferred candidate, else one of minimal availability |
| Picker.SelectSequential | crates/bit_rev/src/picker.rs:110-120 | The first preferred candidate, else the lowest index |
| Assembly.PieceChunksCover | crates/bit_rev/src/peer_connection.rs:869-886 | The loop decides whether the sorted spans run from zero to the length without gap or overlap |
| Assembly.StoredIsFirstDelivery | crates/bit_rev/src/peer_connection.rs:795-813 | For every series of deliveries no offset is stored twice, nothing is invented, and no offset is lost |
| Assembly.FirstDeliveryIsKept | crates/bit_rev/src/peer_connection.rs:795-813 | A chunk is kept if and only if it is the first delivery of its offset |
| Assembly.TilesIff | crates/bit_rev/src/peer_connection.rs:869-886 | For every 32-bit length the chunks tile the piece exactly if and only if the check succeeds and no chunk ends past 2^32 - 1 |
| Assembly.OverlongIsCovered | crates/bit_rev/src/peer_connection.rs:878-885 | At length 2^32 - 1 the check accepts 65535 blocks of 65537 bytes although the last is a byte too long and the piece is not tiled |
| Assembly.ChunkToBuf | crates/bit_rev/src/peer_connection.rs:889-900 | Copying in place gives the overlay of the chunks that fit |
| Assembly.TiledPieceIsExact | crates/bit_rev/src/peer_connection.rs:889-900 | In a tiled piece every chunk is found unchanged at its offset |
| Assembly.OrderDoesNotMatter | crates/bit_rev/src/peer_connection.rs:889-900 | The same chunks in any order give the same bytes |
| Assembly.AssembledIsData | crates/bit_rev/src/peer_connection.rs:889-900 | Chunks cut from some bytes, when they tile the piece, give those bytes again |
| Assembly.GridDeliveriesComplete | crates/bit_rev/src/utils.rs:23-28 | Delivering every 16 KiB grid block, in any order and with duplicates, covers and tiles a piece of any 32-bit length |
| Availability.Counts.AddBitfield | crates/bit_rev/src/picker.rs:34-41 | Raises the count of exactly the pieces in the bitfield |
| Availability.Counts.RemoveBitfield | crates/bit_rev/src/picker.rs:43-50 | Lowers the count of exactly the pieces in the bitfield |
| Availability.Counts.AddHave | crates/bit_rev/src/picker.rs:52-56 | Raises one count if the piece exists |
| Availability.HaveAgreesIff | crates/bit_rev/src/peer_connection.rs:622-630 | A have keeps the counts equal to the number of holders if and only if it is known, outside the table, or covered by the stored bitfield |
| Availability.NextAgrees | crates/bit_rev/src/peer_connection.rs:2003-2067 | Every other step keeps the agreement, with at most 65535 peers |
| Availability.ExcessIsLeaks | crates/bit_rev/src/picker.rs:34-73 | In every run the excess of a count over its holders grows by exactly one for each uncovered have of the piece, and no other step changes it |
| Availability.CountsAreHolders | crates/bit_rev/src/picker.rs:34-73 | Over every run from an empty swarm each count is the number of connected peers whose stored bitfield has the piece, plus the uncovered haves |
| Availability.RunAgreesIff | crates/bit_rev/src/picker.rs:34-73 | A run from an agreeing swarm ends in an agreeing one if and only if no have in it is uncovered |
| Availability.FewPeersHaveRoom | crates/bit_rev/src/picker.rs:63-73 | With at most 65535 peers and no uncovered have nothing saturates |
| Availability.EarlyHaveLeaks | crates/bit_rev/src/peer_state.rs:187 | A have before the bitfield leaves a count behind after the peer is gone |
| Bitfield.HasAfterSet | crates/bit_rev/src/bitfield.rs:30-47 | Setting changes one bit, and nothing past the end |
| Bitfield.HasIsWireBit | crates/bit_rev/src/bitfield.rs:30-37 | Pieces 0 to 7 are the bits 0x80 to 0x01 of the first byte, and so on; past the end there are none |
| Bitfield.LeastBytes | crates/bit_rev/src/bitfield.rs:11-24 | A bitfield of a torrent has the fewest bytes with a bit for every piece |
| Bitfield.FilledHas | crates/bit_rev/src/bitfield.rs:18-24 | A filled bitfield has exactly the first pieces, without spare bits |
| Bitfield.ZerosHaveNothing | crates/bit_rev/src/bitfield.rs:11-16 | A new bitfield has nothing and covers every piece |
| Bitfield.Buffer.SetPiece | crates/bit_rev/src/bitfield.rs:39-47 | The update in place is the specified one |
| Bitfield.Buffer.IsEmpty | crates/bit_rev/src/bitfield.rs:49-51 | Empty if and only if no piece is set |
| Geometry.LayOut | crates/bit_rev/src/torrent.rs:28-51 | Offsets are prefix sums, so files lie end to end when lengths are not negative |
| Geometry.InsideIff | crates/bit_rev/src/utils.rs:6-16 | A piece starts inside the torrent if and only if its number is below length divided by piece length, rounded up |
| Geometry.AllBytesHaveHashesIff | crates/bit_rev/src/torrent.rs:58-66 | Every byte lies in a piece with a hash if and only if there are at least that many hashes |
| Geometry.PieceOfByte | crates/bit_rev/src/utils.rs:6-16 | A byte lies in exactly one piece, its quotient |
| Geometry.MapSpanMembers | crates/bit_rev/src/utils.rs:61-85 | A mapping is listed if and only if its file overlaps the span, and is the overlap |
| Geometry.MapPieceToFiles | crates/bit_rev/src/utils.rs:61-85 | The loop lists the mappings in file order |
| Geometry.PieceIsFlatSlice | crates/bit_rev/src/utils.rs:61-85 | The mapped slices of a piece, joined, are its bytes in all files laid end to end; a piece past the end maps nothing |
| Geometry.ByteIsMappedOnce | crates/bit_rev/src/utils.rs:61-85 | Every byte of every file is in exactly one mapping of exactly one piece |
| Priority.NormalizeFilePriorities | crates/bit_rev/src/priority.rs:63-69 | Cuts or pads with normal to the number of files |
| Priority.HighestIsMaximum | crates/bit_rev/src/priority.rs:73-92 | The priority of a piece bounds that of each of its files and is one of them |
| Priority.HighestByName | crates/bit_rev/src/priority.rs:73-92 | The highest of some priorities is High if any is, else Normal if any is, else Low if any is, else Skip |
| Priority.PiecePriorityByName | crates/bit_rev/src/priority.rs:73-92 | The priority of a piece inside the torrent is High if it overlaps a High file, else Normal if it overlaps a Normal one or one without an entry, else Low if it overlaps a Low one, else Skip |
| Priority.SkippedIff | crates/bit_rev/src/priority.rs:73-92 | For any number of hashes a piece is skipped if and only if it starts inside the torrent and every file it overlaps is skipped |
| Priority.ExtraHashIsWanted | crates/bit_rev/src/priority.rs:73-92 | With a hash too many, the piece past the end is wanted though no unskipped file overlaps it |
| Priority.SkippedInBytes | crates/bit_rev/src/priority.rs:73-92 | The same in terms of bytes, with the empty files inside the piece |
| Priority.EmptyFileKeepsPieceWanted | crates/bit_rev/src/priority.rs:73-92 | In a well-formed torrent an empty file inside a piece keeps it wanted though every byte of the piece belongs to a skipped file |
| Priority.FirstLastWantedPieces | crates/bit_rev/src/priority.rs:95-121 | The loop builds the first and last pieces of the wanted files in file order |
| Priority.FirstLastAreEdges | crates/bit_rev/src/priority.rs:95-121 | The list holds exactly the quotients of the first and last byte of the files that are not empty and not skipped by the piece length, as 32-bit numbers, each once |
| Priority.AllBelowIff | crates/bit_rev/src/priority.rs:95-121 | For every layout the list is below a bound if and only if the 32-bit numbers of all edges are |
| Priority.InRangeIff | crates/bit_rev/src/priority.rs:95-121 | While piece numbers fit 32 bits the list is below a bound if and only if every wanted file ends below it |
| Priority.FirstLastAreWanted | crates/bit_rev/src/priority.rs:95-121 | While piece numbers fit 32 bits no listed piece is skipped |
| Priority.MissingHashIsListed | crates/bit_rev/src/priority.rs:95-121 | With hashes missing, a piece is listed that the table does not have |
| Priority.WrappedEdgeIsSkipped | crates/bit_rev/src/priority.rs:95-121 | A piece number of 2^32 is listed as piece 0, which is skipped |
| FileProgress.FilePieceMappings | crates/bit_rev/src/priority.rs:149-174 | One entry with the overlap for each piece from the first of the file to its last, or to the last with a hash |
| FileProgress.FileHaveBytes | crates/bit_rev/src/priority.rs:124-142 | The sum is the number of bytes of the file that lie in held pieces with a hash; with all of them held it is the file length if and only if the file ends in one |
| FileProgress.WholeFile | crates/bit_rev/src/priority.rs:124-174 | The overlaps of a file add up to at most its length, and to its length with all pieces held if and only if it ends in a piece with a hash |
| PieceSizes.BuildTable | crates/bit_rev/src/session.rs:3275-3284 | The table has one entry for each hash, numbered by its place, with its size as a 32-bit number, no chunk, no reservation, no claim and not downloaded; it is a well-formed table |
| PieceSizes.AllBytesIff | crates/bit_rev/src/session.rs:3275-3284 | With as many hashes as the length takes and nothing skipped, the wanted bytes are the length of the torrent if and only if every piece size fits 32 bits |
| Bencode.SkipBencode | crates/bit_rev/src/file.rs:337-366 | The recursive walk with its cursor loop terminates, stays in bounds and counts its open containers |
| Bencode.SkipRecognisesGrammar | crates/bit_rev/src/file.rs:317-366 | The skipper succeeds at an end if and only if a grammatical value is encoded up to there |
| Bencode.FormatBytes | crates/bit_rev/src/file.rs:337-366 | The grammar in literal bytes: `i` and `e` around an integer, a colon behind a length, `l` or `d` before and `e` behind a container |
| Bencode.PrefixReads | crates/bit_rev/src/file.rs:317-335 | The decimal digits of a number, with or without a plus sign, read as that number if and only if it is below 2^64 |
| Bencode.SkipErrors | crates/bit_rev/src/file.rs:317-366 | A walk fails only because the data ends, a length is no number or runs past the data, or a byte starts no value |
| Bencode.SkipAcceptsEncoding | crates/bit_rev/src/file.rs:337-366 | Every encoded value is skipped exactly, wherever it stands |
| Bencode.SkipAcceptsOnlyEncodings | crates/bit_rev/src/file.rs:337-366 | Whatever is skipped is the encoding of a value |
| Bencode.PeakIsDepth | crates/bit_rev/src/file.rs:337-366 | The walk holds as many containers open as the value is deep |
| Bencode.SkipIsLocal | crates/bit_rev/src/file.rs:337-366 | The result depends only on the bytes skipped, and moves with them |
| Bencode.ParseStringIsLocal | crates/bit_rev/src/file.rs:317-335 | The same for a string |
| DepthGuard.CheckBencodeDepth | crates/bit_rev/src/file.rs:273-315 | The loop accepts exactly what the token-wise verdict accepts, and refuses everything else as too deep |
| DepthGuard.GuardSteps | crates/bit_rev/src/file.rs:273-315 | The verdict byte by byte, for every buffer: what opens, what closes, what is passed over, and that at most 32 may be open |
| DepthGuard.GuardFollowsSkip | crates/bit_rev/src/file.rs:273-366 | An accepted buffer bounds the walk even if the walk fails; if it succeeds, guard and walk meet again at its end with the same depth |
| DepthGuard.GuardIsExact | crates/bit_rev/src/file.rs:273-315 | An encoded value passes if and only if it is at most 32 deep |
| InfoDict.InfoDictRange | crates/bit_rev/src/file.rs:373-387 | The loop finds the specified range, and on accepted input never holds more than 32 containers open |
| InfoDict.GuardBoundsSearch | crates/bit_rev/src/file.rs:273-387 | The bound holds for all skips of the search together, also when it fails |
| InfoDict.SearchSurvivesSplice | crates/bit_rev/src/file.rs:390-405 | Replacing the value found by any other complete value leaves the search at the same place |
| InfoDict.WrappedInfoIsFound | crates/bit_rev/src/file.rs:407-412 | The fallback dictionary reads back as the value it wraps |
| InfoDict.InfoBytesPreserved | crates/bit_rev/src/file.rs:368-412 | Whatever the serializer returned, the written file reads back as exactly the given bytes if and only if they are one complete value (what becomes of the rest is `InfoDict.RestIsKept`) |
| InfoDict.RestIsKept | crates/bit_rev/src/file.rs:390-412 | Where the serialized file has an info value, the bytes before it and behind it stay and the given bytes stand between them; otherwise the file is `d4:info`, the bytes and `e` |
| InfoDict.NotADictIff | crates/bit_rev/src/file.rs:373-376 | Refused as no dictionary if and only if the first byte is not `d` |
| InfoEntries.PrefixSpells | crates/bit_rev/src/file.rs:317-335 | A decimal length, a colon and that many bytes are read as a key of those bytes |
| InfoEntries.RangeInDictionary | crates/bit_rev/src/file.rs:373-387 | In a dictionary of readable entries the range is the value of the first entry whose key is `info`, and there is none if and only if no key is |
| InfoEntries.EntriesSurvive | crates/bit_rev/src/file.rs:390-405 | Writing other info bytes into a dictionary of readable entries changes the value of that entry and no other entry |
| SlotPlan.CapsHold | crates/bit_rev/src/session.rs:2351-2438 | Admitted downloads and uploads that are neither forced nor slow stay within each cap and their sum within the total, for every list |
| SlotPlan.CapsHoldWithoutForce | crates/bit_rev/src/session.rs:2351-2438 | Without forced torrents the slot counters themselves stay within the caps |
| SlotPlan.NoOvertaking | crates/bit_rev/src/session.rs:2351-2438 | No torrent that is not forced is admitted behind a queued one of its kind |
| SlotPlan.QueuedExactlyWhenFull | crates/bit_rev/src/session.rs:4030-4049 | A torrent is queued if and only if it competes, is not forced and a cap is reached at its turn; the cap is then still reached at the end |
| SlotPlan.SecondPassAgrees | crates/bit_rev/src/session.rs:2351-2438 | A second pass over settled torrents decides the same, except that stopped seeds are left alone |
| QueueSession.Session.EvaluateQueue | crates/bit_rev/src/session.rs:2351-2477 | Writes the decisions in queue order, keeps order and positions, emits one event per real change, does nothing while restoring; afterwards every torrent that is not paused, checking, moving or in error is paused at its seed limit, else queued or in the state its completeness asks for, and transfers if and only if it is downloading, seeding or fetching metadata; the caps hold for the states in the tables and nobody has overtaken |
| QueueSession.EvaluationIsFair | crates/bit_rev/src/session.rs:2351-2477 | After every evaluation the torrents that run, neither forced nor slow, are within each cap, and behind a queued torrent none of its kind runs unless forced |
| QueueSession.EvaluationSettles | crates/bit_rev/src/session.rs:2351-2477 | The states and transfer flags of all torrents and pending entries after an evaluation, by name |
| QueueSession.QueuedIff | crates/bit_rev/src/session.rs:2351-2477 | After an evaluation a torrent waits if and only if it is neither left alone, nor at its limit, nor forced, and the slots held before it fill a cap |
| QueueSession.EventsAreChanges | crates/bit_rev/src/session.rs:2439-2477 | The events are exactly the changes of state, one for each, in queue order |
| QueueSession.SeedLimitIff | crates/bit_rev/src/session.rs:2479-2503 | The limit is reached if and only if the torrent is complete and has uploaded the ratio times its base, or the minutes have passed since it was completed |
| QueueSession.SlowIff | crates/bit_rev/src/session.rs:2335-2349 | Slow means exempt, below 1024 bytes a second in both directions together, for at least the window |
| QueueSession.Session.PlanSlots | crates/bit_rev/src/session.rs:2356-2438 | The pass with its running counters makes the specified decision at every place |
| QueueSession.Session.WriteStates | crates/bit_rev/src/session.rs:2439-2477 | Writing one after the other is the same as writing all at once |
| QueueSession.Session.SetState | crates/bit_rev/src/session.rs:2517-2545 | Changes the state of one torrent, sets its transfer flag if and only if the new state is downloading, seeding or metadata, and emits an event exactly when the state differs |
| QueueSession.SecondEvaluationIsIdle | crates/bit_rev/src/session.rs:2351-2477 | With rates, completion and clock fixed, a second evaluation changes no state and emits no event |
| QueueSession.WrittenKeepsOrder | crates/bit_rev/src/session.rs:2351-2477 | An evaluation moves no torrent in the queue |
| QueueSession.Session.QueueOrder | crates/bit_rev/src/session.rs:2296-2315 | Lists every torrent and pending entry once, sorted by position and id |
| QueueSession.QueueOrderIsUnique | crates/bit_rev/src/session.rs:2296-2315 | There is only one such list, whatever order the tables are read in |
| QueueSession.Session.ApplyQueueOrder | crates/bit_rev/src/session.rs:2317-2329 | Afterwards the given list is the queue order; only positions changed |
| QueueSession.Session.SetQueuePosition | crates/bit_rev/src/session.rs:2126-2138 | Refused exactly for an unknown id; otherwise the new order is the old one with the id moved |
| QueueSession.Session.QueueUp | crates/bit_rev/src/session.rs:2149-2155 | The id moves one place up |
| QueueSession.Session.QueueDown | crates/bit_rev/src/session.rs:2157-2163 | The id moves one place down |
| QueueSession.MoveKeepsMembers | crates/bit_rev/src/session.rs:2126-2138 | Moving loses and duplicates nothing |
| QueueSession.MoveShape | crates/bit_rev/src/session.rs:2126-2138 | The others keep their order and the id stands at the position asked for, or last |
| QueueSession.UpSwaps | crates/bit_rev/src/session.rs:2149-2155 | Moving up swaps two neighbours and nothing else |
| QueueSession.DownSwaps | crates/bit_rev/src/session.rs:2157-2163 | Moving down swaps two neighbours and nothing else |
| QueueSession.FirstStays | crates/bit_rev/src/session.rs:2149-2155 | The first cannot move up |
| QueueSession.LastStays | crates/bit_rev/src/session.rs:2126-2163 | The last cannot move down, whatever position is asked for |
| Upload.NextConserves | crates/bit_rev/src/peer_connection.rs:1571-1702 | No event loses or duplicates a request |
| Upload.NextStaysBounded | crates/bit_rev/src/peer_connection.rs:1571-1625 | Every event keeps the queue at most 8 long, the storm counter within its limit, and leaves no request without an answer under the fast extension unless it closes the connection |
| Upload.EveryRequestAnsweredOnce | crates/bit_rev/src/peer_connection.rs:1571-1702 | In every run with the fast extension the requests received are, as a multiset, the pieces sent, the rejects, the cancelled, the queued, the one in hand and at most the one that closed the connection |
| Upload.NoRejectsWithoutFast | crates/bit_rev/src/peer_connection.rs:1200-1209 | Without the fast extension no run sends a reject |
| Upload.QueuedIff | crates/bit_rev/src/peer_connection.rs:1571-1625 | A request is queued, last, if and only if the piece is held, the block is 1 byte to 128 KiB long and inside it, the torrent runs, the peer is unchoked or the piece is allowed fast under the extension, and fewer than 8 wait; otherwise the queue is unchanged |
| Upload.RejectedIff | crates/bit_rev/src/peer_connection.rs:1571-1625 | A reject goes out if and only if the extension is on and a request for a missing piece or a valid one is not queued |
| Upload.ClosedIff | crates/bit_rev/src/peer_connection.rs:1571-1625 | A request closes the connection if and only if its piece does not exist, is missing without the extension, its bounds are wrong, or it is the ninth in a row from a peer that may not ask |
| Upload.ChokedRow | crates/bit_rev/src/peer_connection.rs:1596-1607 | The storm counter counts the requests of a peer that may not ask and starts again with one it may make |
| Upload.SettingsDecide | crates/bit_rev/src/peer_connection.rs:1590-1619 | Choking, pausing and allowing pieces decide about the requests after them |
| Upload.CancelExact | crates/bit_rev/src/peer_connection.rs:2168-2176 | A cancel removes every queued copy of its request and keeps the others in order |
| Upload.DrainExact | crates/bit_rev/src/peer_connection.rs:1211-1231 | While choking, the queued requests for allowed pieces stay in order and the others are rejected in order; while paused all are; without the extension the queue is let go |
| Upload.PopExact | crates/bit_rev/src/peer_connection.rs:1658-1665 | The oldest request is taken in hand, unless the peer is choked and its piece is not allowed |
| Upload.SendExact | crates/bit_rev/src/peer_connection.rs:1679-1701 | The request in hand is sent exactly when the torrent runs and the send succeeds; paused, it is rejected; a failed send closes |
| Upload.ReadFailsExact | crates/bit_rev/src/peer_connection.rs:1666-1678 | After a failed read exactly the request in hand is rejected |
| Upload.IdleConnectionServes | crates/bit_rev/src/peer_connection.rs:1571-1702 | On an idle connection a valid request from a peer that may ask is answered by its piece |
| Upload.RunServes | crates/bit_rev/src/peer_connection.rs:1571-1702 | In every run only blocks of 1 byte to 128 KiB are queued, taken in hand or sent |
| Upload.ChokeLeavesAllowed | crates/bit_rev/src/peer_connection.rs:1211-1231 | After a choke only allowed-fast requests stay queued |
| Upload.PeerUploads.SendReject | crates/bit_rev/src/peer_connection.rs:1200-1209 | Books the request as rejected or, without the extension, as unanswered |
| Upload.PeerUploads.RejectUploadQueue | crates/bit_rev/src/peer_connection.rs:1211-1231 | Draining the queue in place keeps the allowed requests in order and rejects the others |
| Upload.PeerUploads.OnIncomingRequest | crates/bit_rev/src/peer_connection.rs:1571-1625 | The handler with all its exits is one step of the protocol; the request joins the queue if and only if it is valid, the torrent runs, fewer than 8 wait, and the peer is unchoked or the piece is allowed fast under the extension |
| Upload.PeerUploads.OnCancel | crates/bit_rev/src/peer_connection.rs:2168-2176 | A cancel removes every queued copy and is one step of the protocol |
| Upload.PeerUploads.UploaderReject | crates/bit_rev/src/peer_connection.rs:1628-1657 | The uploader's drain when paused or choking is one step |
| Upload.PeerUploads.UploaderPop | crates/bit_rev/src/peer_connection.rs:1658-1665 | Taking the next request, with the late choke check, is one step |
| Upload.PeerUploads.ReadFailed | crates/bit_rev/src/peer_connection.rs:1666-1678 | A failed read rejects the request in hand |
| Upload.PeerUploads.SendPiece | crates/bit_rev/src/peer_connection.rs:1679-1701 | Sending answers the request in hand, or rejects it when paused meanwhile |
| Message.PayloadRoundTrip | crates/bit_rev/src/message.rs:204-223 | A block request is read back from its payload, whatever follows |
| Message.FrameRoundTrip | crates/bit_rev/src/protocol.rs:79-107 | A well-formed message that fits is decoded from its own frame, whatever follows |
| Message.DecodedIsWellFormed | crates/bit_rev/src/message.rs:456-517 | Every message that decodes is well formed and fits, for every buffer |
| Message.FrameRoundTripIff | crates/bit_rev/src/message.rs:392-454 | A message survives its frame if and only if it is well formed and fits |
| Message.Be32Value | crates/bit_rev/src/message.rs:456-460 | Four bytes read as 2^24, 2^16, 2^8 and 1 times their values, and are written back as they were |
| Message.EmptyFrames | crates/bit_rev/src/message.rs:392-444 | No message is no bytes, a keep-alive four zero bytes |
| Message.BareFrames | crates/bit_rev/src/message.rs:392-454 | The frames without payload are 0, 0, 0, 1 and the id, listed by message |
| Message.FixedFrames | crates/bit_rev/src/message.rs:392-454 | The frames of fixed length, with their ids and big-endian numbers |
| Message.OpenFrames | crates/bit_rev/src/message.rs:392-454 | The frames that carry bytes: length, id, bytes |
| Message.DecodeCases | crates/bit_rev/src/protocol.rs:79-107 | For every buffer: keep-alive for length zero, refused above 2 MiB by the length alone, truncated when bytes are missing or too few for the id, unknown for the ids of no message, else a message |
| Message.TrailingIsIgnored | crates/bit_rev/src/message.rs:56-108 | Bytes behind a payload of fixed length change nothing |
| Message.StreamRoundTrip | crates/bit_rev/src/protocol.rs:79-107 | Decoding the concatenated frames of any list of such messages returns exactly that list |
| Message.FramesAreInjective | crates/bit_rev/src/message.rs:392-454 | Different lists of messages give different lists of frames |
| PercentCode.UrlEncodeBytes | crates/bit_rev/src/file.rs:416-433 | The loop encodes byte by byte |
| PercentCode.PercentDecode | crates/bit_rev/src/magnet.rs:139-158 | The loop decodes escapes and keeps everything else, including a broken escape |
| PercentCode.DecodeEncode | crates/bit_rev/src/magnet.rs:139-158 | Decoding undoes encoding for every byte string |
| PercentCode.EncodedIsSafe | crates/bit_rev/src/file.rs:414-433 | Encoded text holds only unreserved bytes and percent signs |
| HashText.DecodeHex | crates/bit_rev/src/magnet.rs:160-172 | Returns the twenty bytes of the number written in base 16, or the right error |
| HashText.DecodeBase32 | crates/bit_rev/src/magnet.rs:175-205 | Returns the twenty bytes of the number written in base 32, or the right error; the accumulator never overflows and the byte-count exits are unreachable |
| HashText.HexRoundTrip | crates/bit_rev/src/magnet.rs:110-172 | Reading undoes printing for every hash |
| HashText.Base32RoundTrip | crates/bit_rev/src/magnet.rs:175-205 | Every text of the base-32 digits of a hash, in either case, reads as that hash |
| Magnet.ParseXt | crates/bit_rev/src/magnet.rs:119-133 | The two loops give the specified result for every topic |
| Magnet.SpellingsAgree | crates/bit_rev/src/magnet.rs:119-205 | The hex and the base-32 spelling of a hash read as the same twenty bytes |
| Magnet.Base32Reads | crates/bit_rev/src/magnet.rs:119-205 | So does every mix of cases |
| Magnet.Parse | crates/bit_rev/src/magnet.rs:41-101 | The loop over the parameters gives the specified result or error for every text |
| Magnet.Print | crates/bit_rev/src/magnet.rs:216-233 | The loops write the parameters in order |
| MagnetText.PrintedText | crates/bit_rev/src/magnet.rs:216-233 | The printed link in literal bytes: `magnet:?xt=urn:btih:` and the hash, then the `&dn=`, `&tr=`, `&x.pe=` and `&ws=` parameters in this order |
| MagnetText.TrackerAdds | crates/bit_rev/src/magnet.rs:63-79 | A `tr=`, in any case, appends its decoded value to the trackers unless it is empty |
| MagnetText.WebseedAdds | crates/bit_rev/src/magnet.rs:63-85 | A `ws=`, in any case, appends its decoded value to the web seeds unless it is empty |
| MagnetText.NameAdds | crates/bit_rev/src/magnet.rs:63-78 | The first `dn=` that is not empty gives the name |
| MagnetText.PeerAdds | crates/bit_rev/src/magnet.rs:63-84 | An `x.pe=` appends its address if its value is one |
| MagnetText.HashAdds | crates/bit_rev/src/magnet.rs:63-75 | The first `xt=` with a version 1 hash gives it, one of version 2 is noted, any other ends the parsing |
| MagnetText.XtCases | crates/bit_rev/src/magnet.rs:119-133 | Which topics are version 2, which are none, and that 40 digits are read as hexadecimal and 32 as base 32 |
| MagnetText.QueryOfLink | crates/bit_rev/src/magnet.rs:41-50 | Where the parameters start: behind `magnet:`, an optional `//` and the first question mark |
| MagnetText.ParametersApart | crates/bit_rev/src/magnet.rs:59-62 | Parameters are taken one by one, apart at ampersands |
| MagnetText.Outcome | crates/bit_rev/src/magnet.rs:59-101 | For every link with parameters: the error of the first bad topic, else a magnet if and only if some topic gives a hash, else version 2 refused if and only if one was there, else missing |
| MagnetText.EscapeText | crates/bit_rev/src/file.rs:416-433 | An escape is a percent sign and two upper-case digits, for every byte but letters, digits and `-._~` |
| MagnetText.HexText | crates/bit_rev/src/magnet.rs:110-112 | A hash is printed as two lower-case digits a byte, the higher first |
| MagnetText.Base32Alphabet | crates/bit_rev/src/magnet.rs:183-188 | The base-32 digits are `A` to `Z`, `a` to `z` and `2` to `7`, in this order of value |
| MagnetText.AddressText | crates/bit_rev/src/magnet.rs:225-227 | The text of a socket address: brackets around IPv6, a percent sign before a scope that is not zero, a colon before the port |
| SocketText.ComesBackIff | crates/bit_rev/src/magnet.rs:135-227 | A printed socket address is read back as itself if and only if it has no flow label and at most a one-digit scope identifier |
| SocketText.SampleIsStandard | crates/bit_rev/src/magnet.rs:135-137 | Some platform keeps all the promises that the round trip relies on |
| Magnet.ParsePrinted | crates/bit_rev/src/magnet.rs:41-233 | Parsing what was printed gives the magnet back without its empty texts and with each peer as its decoded text reads |
| Magnet.RoundTripIff | crates/bit_rev/src/magnet.rs:41-233 | The round trip is exact if and only if no text is empty and every IPv6 peer has no flow label and at most a one-digit scope |
| Magnet.RoundTripCanFail | crates/bit_rev/src/magnet.rs:41-233 | A peer with scope 10 and an empty tracker do not come back |
| Magnet.FirstHashWins | crates/bit_rev/src/magnet.rs:70-74 | Once a hash is read, no later parameter changes it |
| Magnet.InvalidExactly | crates/bit_rev/src/magnet.rs:114-117 | A text is refused as no magnet link if and only if it does not start with `magnet:` |
| IpFilter.MergeRanges | crates/bit_rev/src/ip_filter.rs:258-281 | The result blocks the same addresses, is sorted with real gaps, and is the only such list |
| IpFilter.CanonicalIsUnique | crates/bit_rev/src/ip_filter.rs:258-281 | Two canonical lists for the same set of addresses are equal |
| IpFilter.ContainsRange | crates/bit_rev/src/ip_filter.rs:299-302 | The binary search answers as the plain list does, also at the highest address |
| IpFilter.IndexedLookup | crates/bit_rev/src/ip_filter.rs:258-302 | Merging and searching answers as the original list does, for every address |
| Cidr.CidrHoldsPrefix | crates/bit_rev/src/ip_filter.rs:186-221 | A CIDR block becomes a valid range that holds exactly the addresses of its family that share the prefix |
| Cidr.AcceptedIsValid | crates/bit_rev/src/ip_filter.rs:186-256 | A prefix that is too long, a swapped pair and a mixed pair are refused; everything else is a valid range, for a pair exactly from the one to the other |
| RateLimiter.Limiter.Take | crates/bit_rev/src/rate.rs:102-118 | The update in place is the specified poll |
| RateLimiter.RunPaysItsWay | crates/bit_rev/src/rate.rs:15-48 | In every run tokens never go negative and no step pays out more than it held and earned |
| RateLimiter.WindowBound | crates/bit_rev/src/rate.rs:102-118 | In every window of every run the bytes granted are at most the larger of burst, first request and 1, plus rate times length |
| RateLimiter.ExactBalance | crates/bit_rev/src/rate.rs:102-118 | After a poll the bucket holds exactly what it held and earned, at most the largest of burst, request and 1, less the bytes if they were granted |
| RateLimiter.ZeroIsUnlimited | crates/bit_rev/src/rate.rs:102-106 | At rate zero every request is granted and nothing is paid |
| RateLimiter.WaitIsExact | crates/bit_rev/src/rate.rs:102-118 | After a refusal, and any further refused polls, the same request is granted if and only if the wait has passed |

## Left out

- DownloadState.TorrentDownloadedState.Pick: the retry after losing a reservation to another task does not occur within one atomic step.
- Magnet.RoundTripIff: lossy UTF-8 decoding, the printed form of a plain IP address and the address reader are parameters with the facts stated in `SocketText.Standard`.
- HashText.DecodeBase32: the output is a growing sequence instead of a fixed array with an index.
- StateRuns.DoPeerStep: messages that arrive before the metadata of a magnet download, when the table is still empty, are kept as hints by the source and applied later; the model starts with the table in place.
- Integer widths are modelled where they decide something: 16-bit counts, 32-bit coverage and frame lengths, 64-bit string lengths. Sums of file lengths and byte counters are unbounded.
- The async runtime, locks, notifications, the semaphore and memory orderings; methods are atomic steps.
- SHA-1 and the order of hashing and flag setting; the downloaded flag does not mean verified.
- `serde_bencode`, resume file fields other than the bitfield, and storage on disk.
- Text formats of the blocklist: addresses and prefix lengths are taken as read.
- Metainfo with negative file lengths or offsets: the casts to unsigned numbers are not modelled there.
- Floating-point rounding of rates and tokens, which are reals here.
- Pipeline permits, choking and optimistic unchokes, handshakes, extensions, encryption and transports.
- HTTP and UDP trackers, DHT, local discovery, NAT mapping, web seeds, configuration, command line and web interface.
