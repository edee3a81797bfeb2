# Models of the Benliud BitTorrent engine

Dafny models of the download engine of Benliud (`benliud_bt`) and of the big-integer
and hash code it carries, with proofs of what these parts are for. `dafny verify
dfyconfig.toml` checks everything. Nothing here runs the original program.

| file | part of the engine |
|---|---|
| `Geometry.dfy` | files tiling one byte range, pieces cut from it, edge pieces |
| `StorageState.dfy` | the state of the piece store as a value, its invariant, and what each kind of step keeps |
| `Storage.dfy` | class `Storage`: priorities, both disk loops, write-back, growing files, the four layers of a read |
| `ReadBuffer.dfy` | the read buffer: what is found in it, in what order, and when that is right |
| `Progress.dfy` | which pieces are wanted and missing |
| `Assignment.dfy` | class `TaskBoard` (the picker) and class `Swarm` (peers taking and giving back work) |
| `SingleRequest.dfy` | a peer's current piece: blocks, pending counts, foreign data |
| `Reception.dfy` | a peer's request, the board of shared requests and the store together: received blocks, hash checks, what is asked for next |
| `Sharing.dfy` | pieces fetched by cooperating peers, and their way into the store |
| `Framing.dfy` | message framing, senders and handlers |
| `HandshakeTerms.dfy`, `Handshake.dfy` | Message Stream Encryption between two endpoints |
| `Rc4.dfy` | RC4 and the two-way encryptor |
| `Bitset.dfy` | the packed bitset |
| `Availability.dfy` | how many connected peers have each piece |
| `PeerCenter.dfy` | link accounting per peer, per session and in total |
| `BigInteger.dfy` | decimal-string integers |
| `StreamingHash.dfy` | buffering and padding of SHA-1 and MD5 |
| `Common.dfy` | bytes, options, bounds |

Objects the engine updates in place are classes; each method states its whole new
state, or ties it to a function or predicate about which the lemmas are proved.
Ghost fields record what no field of the engine does: the content a finished piece
consists of, everything received on a connection, the links that are outstanding.
SHA-1 inside the store and the compression of one hash block are arbitrary functions;
a handshake has arbitrary keys, under which the modelled RC4 runs. Random draws and
clock readings are parameters or free choices, so every result holds for all of them.
Each public call of the store and of the peer center is one atomic step. Where platforms differ the Windows
branch is modelled: files have their full size from the start and a skipped file is
opened for reading only.

What came out differently from what comments or documentation suggest, each with
its exact condition:

* A grow byte is written where a stored piece may lie as soon as pieces are larger
  than 2 MiB (`GrowSafeIff`); such a state is reached by writing a piece back
  (`FlushThenGrow`).
* A read served by the disk layer stops at two buffer blocks, 256 KiB (`ReadCutIff`).
* A piece read from disk before it is finished, as an allowed-fast request may cause,
  leaves its blocks in the read buffer. Accepting the piece does not purge them, so a
  later read yields the old bytes (`ReadWriteRead`). All later reads of a piece from the
  buffer are right exactly when no buffered block of it disagrees with its content
  (`RunsRightIff`); under that condition the whole read is (`Storage.ReadData`), and it
  holds after a write exactly when it holds for the data written (`Storage.WritePiece`).
* Nothing but the hash guards the length of a piece put together by cooperating peers:
  the store goes out of agreement exactly when shared blocks of wrong sizes have the
  hash but not the length of the piece (`ShareBoard.SubmitShareData`,
  `ShareBoard.GetShareTask`). Blocks that arrive through a peer's own request have their
  size checked first (`Reception.DoCmdPiece`).
* The connecting side of an encrypted handshake means to recognise a plain answer,
  but its comparison is the wrong way round: it closes exactly when the other side's
  public key starts with byte 19 and the protocol name does not follow
  (`DeliveredMeansFinished`). The accepting side takes any public key that starts like
  a plain handshake for one, and then has no part in the encrypted protocol.
* The message loop goes on after a handler has closed the connection. A late have,
  bitfield or have-all in the same buffer counts for nobody, and a late bitfield or
  have-none takes back what the close has taken back already (`Torrent.DoCmdHave`,
  `Torrent.DoCmdBitfield`, `Torrent.DoCmdHaveAll`, `Torrent.DoCmdHaveNone`). A peer turned
  away while uploading has a set taken back that was never counted
  (`Torrent.TurnAwayBitfield`).
* A bitfield of more than 131160 pieces is over the receiver's length limit
  (`BitfieldArrivesIff`).
* A piece completed from orphans keeps its download count one too high. No count of an
  unfinished piece is wrong, but the entry brings the end game nearer: it changes
  whether a piece in progress is shared, or is to be fetched with others, exactly when
  the number of missing pieces lies between the bounds with and without it
  (`LeftoversShareIff`, `LeftoversCooperateIff`; a run in `LeftoverSharesEarly`).
* After a wrong hash the comment announces a retry when blocks of others were used, but
  the test asks for a block marked with the peer's own address: exactly without one the
  piece is given back and the peer closed (`Reception.CheckPiece`), so it is blamed for
  what others have left (`BlamedForOrphans`). What a peer sends on request leaves the
  block's mark as it is, 0 at first; what it sends unasked is marked with its address,
  what others left with theirs or with 0.
* The purge after a wrong hash drops nothing, and nothing more can be asked for, exactly
  when every block is marked with the peer's address (`PurgeProgressIff`), as when all of
  them were sent unasked by this peer (`StuckOnOwnOrphans`).
* In a shared piece the count of requests per block is a 16-bit number that wraps: a
  block can be handed out exactly when it is empty and data for it has not come in once
  more often, modulo 2^16, than it was asked for (`AskableIff`). An orphan is such data,
  and strands its block until the next delivery (`UnaskedDataStrands`).
* Decomposing a piece into a list that was not cleared gives no partition
  (`DecomposeTwiceIff`).
* The table-based bit count is the size of the set exactly when padding bits are off,
  which a received bitfield need not respect (`CountExactIff`); the test for emptiness is
  wrong exactly for an empty set with a padding bit on (`BitPiece.IsEmpty`); the quick
  superset comparison also accepts sets that are no supersets (`PassesWithoutSuperset`)
  and refuses a superset exactly when padding makes its last byte too small
  (`SupersetPasses`).
* For big integers a = (a / b) * b + a % b fails for negative b unless b divides a
  (`DivisionLawIff`).

## Model

| member | source | states |
|---|---|---|
| `Storage.Storage.ReadData` | benliud_bt/src/BTStorage.cpp:977-1040 | a read succeeds exactly when a memory layer answers or the part can be read from disk; for a finished piece of at most 2 MiB with which no buffered block disagrees it yields exactly the accepted bytes of the slice, whichever of read buffer, edge cache, write cache and disk serves it, cut at 256 KiB by the disk layer only; the buffer afterwards is stated exactly, and no read spoils the agreement of a finished piece |
| `ReadBuffer.RunsRightIff` | benliud_bt/src/BTStorage.cpp:3033-3058 | every run of reads of a piece served from the read buffer yields the piece's bytes exactly when no buffered block of that piece disagrees with it |
| `ReadBuffer.AnswersRightIff` | benliud_bt/src/BTStorage.cpp:3033-3058 | every single read served from the buffer yields the piece's bytes exactly when each of the piece's blocks that no earlier block covers matches |
| `Storage.ReadWriteRead` | benliud_bt/src/BTStorage.cpp:786-866 | the failing run: a piece read from disk before it is finished, then accepted, then read again yields the old bytes; it is right exactly when those are the bytes accepted |
| `Storage.Storage.ReadMissing` | benliud_bt/src/BTStorage.cpp:991-1036 | the disk layer: success exactly when the part is readable, the bytes of the disk, and the buffer with the new blocks at its end |
| `Storage.ReadCutIff` | benliud_bt/src/BTStorage.cpp:991-1000 | the cut loses nothing exactly when the slice is at most two buffer blocks |
| `Storage.Storage.ReadDataFromCache` | benliud_bt/src/BTStorage.cpp:3028-3091 | found exactly when a buffered block covers the request or the piece is in the edge or write cache; the latter two yield the accepted slice, a buffered block its own bytes |
| `Storage.Storage.SearchReadBuffer` | benliud_bt/src/BTStorage.cpp:3033-3058 | a hit exactly when some block covers the request; the first such block serves it and moves to the end, the others keep their order |
| `Storage.Storage.BufferBlocks` | benliud_bt/src/BTStorage.cpp:1000-1036 | what was read is cut into blocks at the end of the buffer and the oldest go, leaving the newest, as many as the buffer's size allows; pieces that agreed with the buffer still do |
| `Storage.DiskReadMatches` | benliud_bt/src/BTStorage.cpp:977-1000 | what the disk yields for a finished piece is its content |
| `Storage.Storage.WritePiece` | benliud_bt/src/BTStorage.cpp:786-866 | a duplicate or unwanted piece changes nothing but the waste count; any other data enters finished set, write cache and, for an edge piece, edge cache, and the layers stay in agreement exactly when it has the piece's length and hash; the read buffer is not purged: it agrees with the new piece exactly when no buffered block disagrees with the data |
| `StorageState.AcceptKeepsInv` | benliud_bt/src/BTStorage.cpp:786-826 | accepting a piece keeps all layers in agreement with one map from piece to bytes |
| `StorageState.FlushKeepsInv` | benliud_bt/src/BTStorage.cpp:3546-3588 | moving a piece from write cache to disk keeps that agreement, also for edge pieces and skipped files |
| `StorageState.GrowKeepsInv` | benliud_bt/src/BTStorage.cpp:3619-3657 | poking the byte that grows a file keeps that agreement when pieces are at most 2 MiB |
| `StorageState.GrowSafeIff` | benliud_bt/src/BTStorage.cpp:3603-3643 | the poked byte lies in a piece after the file's mark exactly when pieces are at most 2 MiB; otherwise in the marked piece itself |
| `StorageState.GrowMissesStoredPieces` | benliud_bt/src/BTStorage.cpp:3603-3654 | in every reachable state with such pieces the poked byte lies in no piece that is on disk |
| `StorageState.GrowBreaksLargePiece` | benliud_bt/src/BTStorage.cpp:3603-3654 | with larger pieces, poking a file whose mark is a stored inner piece overwrites that piece's last byte |
| `Storage.FlushThenGrow` | benliud_bt/src/BTStorage.cpp:3546-3657 | and such states are reached: writing an inner piece of more than 2 MiB back and then growing its file, of over 40 MiB and not yet near its end, leaves the piece neither on disk nor in memory |
| `StorageState.LaterCoverStartsInPiece` | benliud_bt/src/BTStorage.cpp:3669-3691 | a piece covered by a second file is that file's first, which is why marking the first file is enough |
| `StorageState.WriteThenRead` | benliud_bt/src/BTStorage.cpp:869-975 | a piece written reads back as itself exactly when each of its bytes lies in a file that takes writes or had that value already |
| `StorageState.WriteLeavesOtherPieces` | benliud_bt/src/BTStorage.cpp:869-975 | writing a piece changes no byte of any other |
| `StorageState.InnerWantedReadable` | benliud_bt/src/BTStorage.cpp:3028-3091 | a wanted piece that is not an edge piece can be read from disk in full |
| `Geometry.InnerPieceInOneFile` | benliud_bt/src/BTStorage.cpp:3723-3731 | a piece no file starts in lies inside one file: every piece spanning two files is an edge piece |
| `Geometry.CoversMeansOverlap` | benliud_bt/src/BTStorage.cpp:1431-1438 | [head, tail) of a non-empty file is exactly the pieces it overlaps, by the head and tail rounding of the file list |
| `Geometry.CoversMeansMeets` | benliud_bt/src/BTStorage.cpp:1431-1438 | a piece in the range shares a byte position with the file, for empty files too where the file begins inside it |
| `Geometry.PieceFits` | benliud_bt/src/BTStorage.cpp:449-463 | each piece has a positive length within the nominal one and lies in the total |
| `Geometry.PiecesDisjoint` | benliud_bt/src/BTStorage.cpp:449-463 | no position belongs to two pieces |
| `Geometry.FileAtExists` | benliud_bt/src/BTStorage.cpp:1198-1214 | every position of the tiling has a file, zero-length files notwithstanding |
| `Geometry.FileAtUnique` | benliud_bt/src/BTStorage.cpp:1198-1214 | and only one that contains it |
| `Storage.Storage.GetFileInfoByOffset` | benliud_bt/src/BTStorage.cpp:1198-1214 | finds the file of a position, or none beyond the end |
| `Storage.Storage.WritePieceToDisk` | benliud_bt/src/BTStorage.cpp:869-975 | -1 for data of another length; else exactly the writable files receive their part of the data |
| `Storage.Storage.WriteRange` | benliud_bt/src/BTStorage.cpp:884-972 | the loop over file boundaries ends and lays the data over its range, skipped and virtual files left out |
| `Storage.Storage.ReadDataFromDisk` | benliud_bt/src/BTStorage.cpp:1059-1185 | succeeds exactly when every byte of the range can be read, and returns those bytes, zeros for virtual files |
| `Storage.Storage.ReadRange` | benliud_bt/src/BTStorage.cpp:1072-1183 | the same for any range of the tiling |
| `Storage.Storage.CheckOldFiles` | benliud_bt/src/BTStorage.cpp:161-202 | at start exactly the readable pieces whose bytes have the torrent's hash are finished |
| `Storage.Storage.InitFileProgress` | benliud_bt/src/BTStorage.cpp:3428-3454 | each file's mark is its last finished piece, or its head when it has none |
| `Storage.Storage.JobInit` | benliud_bt/src/BTStorage.cpp:271-328 | after start-up all layers agree, the finished pieces are those of the saved bitset or, without one, those whose bytes on disk have the hash, and the content of each is what is on disk |
| `Storage.Storage.FlushPiece` | benliud_bt/src/BTStorage.cpp:3550-3557 | the new disk, mark and cache after one piece is written back |
| `Storage.Storage.RecordLastWriteInFile` | benliud_bt/src/BTStorage.cpp:3669-3691 | only the first real file covering the piece has its mark moved, and only forward |
| `Storage.Storage.PieceDistanceFromLastWrite` | benliud_bt/src/BTStorage.cpp:3695-3719 | bytes between the mark of the first non-empty real file and the piece, zero when before it |
| `Storage.Storage.FlushNear` | benliud_bt/src/BTStorage.cpp:3546-3566 | in piece order, exactly the cached pieces within 4 MiB of their file's mark at that moment are written back, up to where the clock stops the walk, which it does only after a write; marks and cache afterwards are stated exactly |
| `Storage.NearWritten` | benliud_bt/src/BTStorage.cpp:3546-3566 | a piece that is near at the start is not passed by without anything being written |
| `Storage.Storage.FlushExcess` | benliud_bt/src/BTStorage.cpp:3569-3588 | from its budget on the cache loses its lowest pieces until it is one below, otherwise nothing; the rest stays as it is |
| `Storage.Storage.SmartWriteCache` | benliud_bt/src/BTStorage.cpp:3535-3663 | first the pieces near their file's mark go, all of them or up to one that was written; then, if the cache has reached its budget, the lowest of the rest until it is one below; something is written whenever a cached piece is near; every layer stays in agreement, and cache size plus pieces written is unchanged |
| `Storage.Storage.GrowFile` | benliud_bt/src/BTStorage.cpp:3619-3657 | one file is poked exactly when the step stays inside it; the byte before the target piece becomes 0x0A, in a skipped file nothing is written; only that file's mark moves, forward |
| `Storage.Storage.GrowFiles` | benliud_bt/src/BTStorage.cpp:3599-3660 | each file of over 40 MiB is grown by one step, up to where the clock stops the walk, which it does only after a poke; marks and files afterwards are stated exactly, and every layer stays in agreement |
| `Storage.Storage.IsEdgePiece` | benliud_bt/src/BTStorage.cpp:3723-3731 | true exactly when some file starts in the piece |
| `Storage.Storage.GenPriorityBitSet` | benliud_bt/src/BTStorage.cpp:1234-1333 | each piece gets the highest contribution any real, non-empty file covering it makes |
| `Storage.ContributionFacts` | benliud_bt/src/BTStorage.cpp:1253-1330 | a file asks for nothing when skipped, for its priority without preview, and for six more in a short one to be previewed |
| `Storage.PreviewFacts` | benliud_bt/src/BTStorage.cpp:1265-1305 | in a long one it is six more at the front, never more towards the end, and at least one more |
| `Storage.PreviewBonusSteps` | benliud_bt/src/BTStorage.cpp:1275-1303 | of twenty equal parts the first one, two, three, four and five get 6 down to 2, the rest 1 |
| `Storage.TopPriorityIgnoresOrder` | benliud_bt/src/BTStorage.cpp:1234-1333 | that priority does not depend on the order of the files |
| `Storage.TopPriorityPositive` | benliud_bt/src/BTStorage.cpp:1234-1333 | it is positive exactly when a selected, non-empty, real file overlaps the piece |
| `Storage.TopPriorityBounded` | benliud_bt/src/BTStorage.cpp:1234-1333 | and at most 11 for user priorities up to 5 |
| `Storage.Storage.CheckIsTaskFinished` | benliud_bt/src/BTStorage.cpp:2227-2245 | finished exactly when no wanted piece is missing |
| `Storage.Storage.GetLeftPieceCount` | benliud_bt/src/BTStorage.cpp:2618-2637 | the number of wanted pieces that are missing |
| `Storage.Storage.CalculateFinishedPercent` | benliud_bt/src/BTStorage.cpp:2198-2220 | the share of wanted pieces that are finished; 1 exactly when none is missing |
| `Progress.CountPieces` | benliud_bt/src/BTStorage.cpp:2618-2637 | finished and missing pieces among the wanted ones |
| `Handshake.Conversation.DeliveredMeansFinished` | benliud_bt/src/BTPeer.cpp:3301-3726 | for any keys, paddings and fragmentation, once nothing is left to deliver: B has taken the opening for a plain handshake exactly when A's public key looks like one; otherwise A has closed exactly when B's public key starts with byte 19 not followed by the protocol name; otherwise both have finished, their RC4 keystreams are in step in both directions, and each side holds the other's clear text, A's 68-byte handshake first |
| `HandshakeTerms.UnpaddedIsValid` | benliud_bt/src/BTPeer.cpp:3301-3726 | which all keys, hashes and messages without padding before a mark meet |
| `Handshake.Conversation.DecipheredIsPrefix` | benliud_bt/src/BTPeer.cpp:3841-4132 | in every reachable state what a side has deciphered is a prefix of what the other meant; when one side has left the protocol neither finishes |
| `Handshake.Conversation.DeliverToB` | benliud_bt/src/BTPeer.cpp:842-936 | any next chunk of A's stream can be delivered while B has not taken the opening for a plain handshake |
| `Handshake.Conversation.DeliverToA` | benliud_bt/src/BTPeer.cpp:842-936 | any next chunk of B's stream can be delivered while A is open |
| `Handshake.Conversation.SendFromA` | benliud_bt/src/BTPeer.cpp:804-840 | application data may follow at any time once finished |
| `Handshake.Conversation.SendFromB` | benliud_bt/src/BTPeer.cpp:804-840 | the same for B |
| `Handshake.Initiator.Receive` | benliud_bt/src/BTPeer.cpp:3247-3299 | each arrival keeps A's state that of the received prefix, through all its states |
| `Handshake.Initiator.AfterSendPub` | benliud_bt/src/BTPeer.cpp:3301-3476 | answers with hashes, verification constant, padding and handshake, or refuses |
| `Handshake.Initiator.AfterGotPub` | benliud_bt/src/BTPeer.cpp:3519-3558 | finds the verification constant at its place or waits |
| `Handshake.Initiator.AfterFoundVC` | benliud_bt/src/BTPeer.cpp:3561-3630 | waits for the choice and has it read |
| `Handshake.Initiator.ReadChoice` | benliud_bt/src/BTPeer.cpp:3577-3626 | deciphers the constant, B's choice and the length of its padding |
| `Handshake.Initiator.AfterWaitPadD` | benliud_bt/src/BTPeer.cpp:3633-3726 | skips the padding with the keystream in step |
| `Handshake.Acceptor.Receive` | benliud_bt/src/BTPeer.cpp:862-901 | the same for B |
| `Handshake.Acceptor.CheckAcceptedShakeHand` | benliud_bt/src/BTPeer.cpp:3734-3839 | 68 bytes decide: an opening that looks like a plain handshake is taken for one, anything else as a public key, to be answered; that is so exactly as A's public key looks |
| `HandshakeTerms.LooksPlainIff` | benliud_bt/src/BTPeer.cpp:3753-3761 | what is taken for a plain handshake: byte 19 and the name BitTorrent protocol, each letter in either case |
| `HandshakeTerms.RefusedIff` | benliud_bt/src/BTPeer.cpp:3309-3335 | what the connecting side refuses: byte 19 and any other name |
| `HandshakeTerms.NetworkOrder` | benliud_bt/src/BTPeer.cpp:3420-3436 | lengths travel most significant byte first |
| `Handshake.Acceptor.AfterSendPub` | benliud_bt/src/BTPeer.cpp:3477-3517 | finds the first hash at its place or waits |
| `Handshake.Acceptor.AfterFoundReq1` | benliud_bt/src/BTPeer.cpp:3841-3984 | checks the second hash, has the offer read and goes on |
| `Handshake.Acceptor.ReadOffer` | benliud_bt/src/BTPeer.cpp:3889-3984 | deciphers the constant, what A offers and the length of its padding |
| `Handshake.Acceptor.AfterWaitPadC` | benliud_bt/src/BTPeer.cpp:3988-4073 | skips the padding, reads the payload length and answers |
| `Handshake.Acceptor.AfterWaitIA` | benliud_bt/src/BTPeer.cpp:4076-4132 | deciphers everything once the payload is there |
| `Handshake.Search` | benliud_bt/src/BTPeer.cpp:3529-3539 | the first position whose mark is fully there with at least one byte behind it |
| `Handshake.SeekMark` | benliud_bt/src/BTPeer.cpp:3519-3558 | in whatever a peer sends: a mark is found at its first place, still waited for, or overdue once the padding cannot be longer |
| `Handshake.ParseChoice` | benliud_bt/src/BTPeer.cpp:3579-3626 | any choice a peer may send: plain text when its bit is set, else RC4 when its bit is set, else refused, as is a padding length over 512 |
| `Handshake.ParseOffer` | benliud_bt/src/BTPeer.cpp:3950-3980 | any offer: RC4 when its bit is set, else plain text; refused for a padding length over 512 |
| `Rc4.RC4.constructor` | benliud_bt/src/MSE_Rc4encryptor.cpp:28-43 | the key schedule, started from the identity |
| `Rc4.MixedPermutes` | benliud_bt/src/MSE_Rc4encryptor.cpp:28-43 | the key schedule only ever exchanges entries |
| `Rc4.StatePermutes` | benliud_bt/src/MSE_Rc4encryptor.cpp:57-64 | at every moment the state is a permutation of all 256 bytes |
| `Rc4.IndicesMove` | benliud_bt/src/MSE_Rc4encryptor.cpp:57-64 | one index goes round, the other moves on by the entry the first one meets |
| `Rc4.RC4.ProcessByte` | benliud_bt/src/MSE_Rc4encryptor.cpp:57-64 | combines a byte with the next keystream byte and advances by one |
| `Rc4.RC4.Process` | benliud_bt/src/MSE_Rc4encryptor.cpp:49-55 | a buffer becomes its combination with the next stretch of keystream |
| `Rc4.RC4Encryptor.constructor` | benliud_bt/src/MSE_Rc4encryptor.cpp:67-73 | both directions start 1024 bytes into their keystreams |
| `Rc4.RC4Encryptor.EncryptReplace` | benliud_bt/src/MSE_Rc4encryptor.cpp:93-96 | enciphers in place with the keystream that starts 1024 bytes in, from where the sending direction stands, and advances only that direction |
| `Rc4.RC4Encryptor.Decrypt` | benliud_bt/src/MSE_Rc4encryptor.cpp:80-83 | the same for the receiving direction |
| `Rc4.RC4Encryptor.Enciphered` | benliud_bt/src/MSE_Rc4encryptor.cpp:86-90 | the same on a copy of the data |
| `Rc4.KeyStreamShift` | benliud_bt/src/MSE_Rc4encryptor.cpp:67-73 | the keystream after the discarded bytes is the same stream at a later position |
| `Rc4.XorTwice` | benliud_bt/src/MSE_Rc4encryptor.cpp:57-64 | combining twice with the same byte is the identity |
| `Rc4.CipherTwice` | benliud_bt/src/MSE_Rc4encryptor.cpp:49-64 | deciphering at the same position undoes enciphering |
| `Rc4.CipherConcat` | benliud_bt/src/MSE_Rc4encryptor.cpp:49-55 | enciphering piece by piece is enciphering the whole |
| `Assignment.TaskBoard.GetPieceTask` | benliud_bt/src/BTStorage.cpp:466-757 | gives out only what the peer has, wanted and unfinished; with something assignable always the top priority, orphans first, else the rarest, to be fetched with others exactly when in progress already, of priority over 5, or with fewer pieces missing than twice those in progress; otherwise only the end game shares, the piece with fewest workers below 20; the overlap search outside the end game never finds anything |
| `Assignment.TaskBoard.ShareInProgress` | benliud_bt/src/BTStorage.cpp:661-753 | with nothing assignable a piece is shared exactly when the missing pieces are at most twice those in progress and an offered one has fewer than 20 workers |
| `Assignment.TaskBoard.GetAppointedTask` | benliud_bt/src/BTStorage.cpp:1894-1958 | an appointed piece is given out exactly when wanted, unfinished and free or stackable, to be fetched with others exactly when in progress already or of priority over 5: the picker's own rule but for the number of missing pieces |
| `Assignment.TaskBoard.AbandonPieceTask` | benliud_bt/src/BTStorage.cpp:760-783 | one worker fewer, the entry going with the last |
| `Assignment.TaskBoard.AssignTop` | benliud_bt/src/BTStorage.cpp:515-659 | the choice among assignable pieces and its count |
| `Assignment.TaskBoard.PickAmong` | benliud_bt/src/BTStorage.cpp:544-623 | the draw decides among all pieces of top priority, or among all of them with the fewest sources, in the order of their numbers |
| `Assignment.TaskBoard.Rarest` | benliud_bt/src/BTStorage.cpp:589-614 | those with the fewest sources, all of them, in the same order |
| `Assignment.TaskBoard.ChooseTop` | benliud_bt/src/BTStorage.cpp:515-625 | the first orphan of top priority, else the drawn one of the others |
| `Assignment.TaskBoard.BestOrphan` | benliud_bt/src/BTStorage.cpp:519-535 | the first of the orphan pieces with the best priority |
| `Assignment.TaskBoard.FindStackable` | benliud_bt/src/BTStorage.cpp:681-714 | finds a piece exactly when one in progress is assignable |
| `Assignment.TaskBoard.ShareInEndGame` | benliud_bt/src/BTStorage.cpp:717-753 | succeeds exactly when an offered piece in progress has fewer than 20 workers, and takes the first with the fewest |
| `Assignment.TaskBoard.FinishPiece` | benliud_bt/src/BTStorage.cpp:786-812 | what an accepted piece changes on the board |
| `Assignment.TakeKeepsCounts` | benliud_bt/src/BTStorage.cpp:627-648 | taking a piece keeps every count the number of peers on an unfinished piece |
| `Assignment.AbandonKeepsCounts` | benliud_bt/src/BTStorage.cpp:760-783 | giving it back keeps it too |
| `Assignment.DropFinishedKeepsCounts` | benliud_bt/src/BTPeer.cpp:2603-2636 | a request dropped without giving back leaves the counts of unfinished pieces right once its own piece is finished |
| `Assignment.LeftoversShareIff` | benliud_bt/src/BTStorage.cpp:661-753 | entries left over of finished pieces change whether work is shared exactly when there is a piece to share and the missing pieces are more than twice those really in progress and at most twice all entries |
| `Assignment.LeftoversCooperateIff` | benliud_bt/src/BTStorage.cpp:625-657 | and whether the taker of a piece is to cooperate exactly when neither progress nor priority decides and the missing pieces lie between the same bounds |
| `Assignment.LeftoversDoNotBlock` | benliud_bt/src/BTStorage.cpp:493-511 | they do not change what is assignable |
| `Assignment.LeftoverSharesEarly` | benliud_bt/src/BTPeer.cpp:2603-2630 | a run with three peers in which such an entry lets a piece be shared that would otherwise be refused |
| `Assignment.Swarm.TakeTask` | benliud_bt/src/BTPeer.cpp:2433-2466 | an idle peer gets work exactly when something is assignable or the end game shares, and is counted |
| `Assignment.Swarm.TakeAppointed` | benliud_bt/src/BTPeer.cpp:2396-2431 | an appointed piece is taken under the same condition, becomes the peer's request and is counted |
| `Assignment.Swarm.CancelMyRequest` | benliud_bt/src/BTPeer.cpp:1826-1846 | a cancelled request is given back, once |
| `Assignment.Swarm.OnConnectionClose` | benliud_bt/src/BTPeer.cpp:278-308 | a closing connection gives its work back |
| `Assignment.Swarm.FailHash` | benliud_bt/src/BTPeer.cpp:1744-1757 | a failed piece is given back once, though the close follows |
| `Assignment.Swarm.CompleteFromOrphans` | benliud_bt/src/BTPeer.cpp:2603-2630 | completing from orphans leaves the finished piece's count one too high |
| `Reception.Reception.DoCmdPiece` | benliud_bt/src/BTPeer.cpp:1655-1760 | each of the eight outcomes is characterised exactly: the shared board decides Cancelled; otherwise a list that is not full waits, a full one is completed exactly when its hash matches, and with a wrong hash it is purged when some block is marked with this peer's address and given back, with the connection closed, when none is. The store changes only on Completed and Cancelled, by this one piece as the blocks have it, and all layers stay in agreement exactly when shared blocks with the hash also have the length, which they have if sized |
| `Reception.Reception.CheckPiece` | benliud_bt/src/BTPeer.cpp:1724-1757 | the same four outcomes for a list as it stands, and what is left of the list and gained by the store after each; a block marked with the peer's own address is what saves the connection |
| `Reception.BlamedForOrphans` | benliud_bt/src/BTPeer.cpp:1743-1757 | the failing run: all but one block come from other addresses and some of that is bad; the peer sends the last block, and whatever that is, its connection is closed |
| `Reception.StuckOnOwnOrphans` | benliud_bt/src/BTPeer.cpp:2603-2636 | the stuck run: a peer takes up a piece that it has sent unasked, with a wrong hash; the list stays full and no request can be sent |
| `Reception.OwnOrphansFill` | benliud_bt/src/BTPeer.cpp:2608-2616 | orphans of one address that cover a piece leave its list full and every block marked with that address |
| `Reception.ForeignUnmarked` | benliud_bt/src/BTPeer.cpp:2608-2616 | orphans of other addresses leave no block marked with this one |
| `Reception.Reception.SharedSized` | benliud_bt/src/BTPeer.cpp:1711-1719 | a block accepted into the peer's own list keeps sized shared blocks sized, so they do not assemble to a wrong length |
| `Reception.Reception.AskAlone` | benliud_bt/src/BTPeer.cpp:1855-1873 | one request for each of some free blocks, which are exactly the ones marked, until the limit of 12 is reached or none is free, and never beyond |
| `Reception.Reception.AskShared` | benliud_bt/src/BTPeer.cpp:1875-1953 | asks for what the board hands out; the requests sent are for exactly the blocks newly marked; the store changes exactly when opening the shared request completes the piece with its hash; the connection closes exactly when nothing is pending in the end |
| `Reception.Reception.NextShared` | benliud_bt/src/BTPeer.cpp:1882-1897 | the board's next block lies on a block boundary of the piece; opening the request may fill the store instead |
| `Reception.Reception.MarkShared` | benliud_bt/src/BTPeer.cpp:1900-1931 | a block that is not pending yet is marked and requested; if it is, nothing is and something was pending |
| `Reception.Reception.CheckOutOrphanData` | benliud_bt/src/BTPeer.cpp:2603-2636 | orphans complete a piece exactly when the list is full with them and has the hash; else the request goes on with the list as it is when not full, purged when full |
| `Reception.Reception.HandOver` | benliud_bt/src/BTPeer.cpp:1730-1739 | an assembled piece always has the piece's length, and is handed over exactly when its hash matches |
| `Reception.Reception.TakeUp` | benliud_bt/src/BTPeer.cpp:2438-2453 | a new request is blank but for its padding |
| `Reception.PurgeProgressIff` | benliud_bt/src/BTPeer.cpp:1744-1750 | after a failed hash the list stays full exactly when every block is marked with the address of the peer, and then nothing is left to ask for |
| `Sharing.ShareBoard.SubmitShareData` | benliud_bt/src/BTStorage.cpp:2387-2430 | a shared block completes the piece exactly when all blocks are there and the assembled data has the hash; the entry then goes; all layers stay in agreement exactly when accepted data has the piece's length |
| `Sharing.ShareBoard.GetShareTask` | benliud_bt/src/BTStorage.cpp:2298-2381 | the same for padding and orphans with which a shared request starts; otherwise the request is on the board |
| `Sharing.ShareBoard.HandOver` | benliud_bt/src/BTStorage.cpp:2405-2417 | a complete shared piece is taken exactly when its hash matches |
| `Sharing.ShareBoard.Open` | benliud_bt/src/BTStorage.cpp:2318-2371 | a new request, what it starts with, and when that is the whole piece |
| `Sharing.ShareBoard.SizedIsRight` | benliud_bt/src/ShareRequest.cpp:254-265 | complete blocks of the right sizes never assemble to a wrong length |
| `Sharing.StartedSized` | benliud_bt/src/BTStorage.cpp:2326-2349 | a request started from padding and orphans of the right sizes is sized |
| `Sharing.SizedLength` | benliud_bt/src/ShareRequest.cpp:254-265 | blocks of the right sizes assemble to the piece's length |
| `Sharing.AskableIff` | benliud_bt/src/ShareRequest.cpp:88-191 | over any history a block can be handed out exactly when it is empty and data for it has not come in once more often, modulo 2^16, than it was asked for |
| `Sharing.UnaskedDataStrands` | benliud_bt/src/ShareRequest.cpp:88-191 | data nobody asked for makes a block unavailable once it is dropped; one more delivery and drop make it available again |
| `Sharing.PendingBalance` | benliud_bt/src/ShareRequest.cpp:88-131 | the 16-bit count is requests less deliveries modulo 2^16 |
| `Sharing.ConfirmedStays` | benliud_bt/src/ShareRequest.cpp:88-131 | what another peer has confirmed stays whatever comes in, each further peer that brings the same adding one, until the 16-bit count wraps or a hash fails |
| `Sharing.UnconfirmedGivesWay` | benliud_bt/src/ShareRequest.cpp:98-116 | unconfirmed data gives way to anything that differs, and the first data is kept |
| `Sharing.ClearedIff` | benliud_bt/src/ShareRequest.cpp:309-320 | a failed hash empties exactly the blocks confirmed less often than the piece has failed |
| `Sharing.ShareRequest.Init` | benliud_bt/src/ShareRequest.cpp:35-45 | an empty, exact decomposition of the piece |
| `Sharing.ShareRequest.SetData` | benliud_bt/src/ShareRequest.cpp:88-131 | the three results and the block's new state; the size of the data is not looked at |
| `Sharing.ShareRequest.GetTask` | benliud_bt/src/ShareRequest.cpp:167-191 | the first block that can be asked for; none exactly when there is none or no priority |
| `Sharing.ShareRequest.CheckHash` | benliud_bt/src/ShareRequest.cpp:147-162 | a failure is counted |
| `Sharing.ShareRequest.GetPieceData` | benliud_bt/src/ShareRequest.cpp:254-265 | the concatenation, of the piece's length when blocks are full and sized |
| `Sharing.ShareRequest.ClearComfirmData` | benliud_bt/src/ShareRequest.cpp:309-320 | exactly the blocks confirmed less often than the piece failed are dropped |
| `Sharing.ShareRequest.SetVirtualData` | benliud_bt/src/ShareRequest.cpp:268-287 | blocks inside the padding are zeros |
| `SingleRequest.SingleRequest.Init` | benliud_bt/src/SingleRequest.cpp:38-55 | with an empty list the blocks are an exact ordered partition and nothing is pending; they are a partition exactly when the list was empty |
| `SingleRequest.DecomposeTwiceIff` | benliud_bt/src/SingleRequest.cpp:57-77 | appending a decomposition to a list gives a partition exactly when the list was empty |
| `SingleRequest.SingleRequest.Decompose` | benliud_bt/src/SingleRequest.cpp:57-77 | the loop lays the blocks end to end |
| `SingleRequest.SingleRequest.Reset` | benliud_bt/src/SingleRequest.cpp:79-86 | the request becomes empty and valid whatever it was |
| `SingleRequest.SingleRequest.SetData` | benliud_bt/src/SingleRequest.cpp:88-110 | accepted exactly when offset and size are a block's; it fills that block and takes its pending mark |
| `SingleRequest.SingleRequest.GetTask` | benliud_bt/src/SingleRequest.cpp:140-158 | the first block neither filled nor pending, marked; none exactly when there is none |
| `SingleRequest.SingleRequest.ResetAllPending` | benliud_bt/src/SingleRequest.cpp:160-171 | all pending marks go, the count with them |
| `SingleRequest.SingleRequest.ResetPendingRequest` | benliud_bt/src/SingleRequest.cpp:376-392 | one pending mark goes |
| `SingleRequest.SingleRequest.MarkPendingRequest` | benliud_bt/src/SingleRequest.cpp:187-207 | one pending mark is set |
| `SingleRequest.SingleRequest.IsPendingRequest` | benliud_bt/src/SingleRequest.cpp:173-185 | whether the block at this offset is marked |
| `SingleRequest.SingleRequest.SetVirtualData` | benliud_bt/src/SingleRequest.cpp:214-233 | exactly the blocks inside the padding become zeros |
| `SingleRequest.SingleRequest.GetPendingRequest` | benliud_bt/src/SingleRequest.cpp:235-251 | the first pending blocks, as many as fit |
| `SingleRequest.SingleRequest.SetAlien` | benliud_bt/src/SingleRequest.cpp:254-268 | foreign data fills a block under the same condition, keeping its pending mark |
| `SingleRequest.SingleRequest.ClearAlien` | benliud_bt/src/SingleRequest.cpp:271-284 | exactly the filled blocks from other sources are emptied |
| `SingleRequest.SingleRequest.HaveAlien` | benliud_bt/src/SingleRequest.cpp:286-299 | whether some block came from this address |
| `SingleRequest.SingleRequest.IsFinish` | benliud_bt/src/SingleRequest.cpp:112-124 | true exactly when every block boundary holds stored data |
| `SingleRequest.SingleRequest.GetPieceData` | benliud_bt/src/SingleRequest.cpp:316-327 | the piece's length exactly when finished, and then every block range holds the data stored there last |
| `SingleRequest.SingleRequest.GetOrphans` | benliud_bt/src/SingleRequest.cpp:355-374 | the filled blocks with their sources |
| `SingleRequest.SingleRequest.TakeOrphans` | benliud_bt/src/BTPeer.cpp:2608-2613 | orphans are put in one after the other |
| `SingleRequest.OrphansRestore` | benliud_bt/src/SingleRequest.cpp:355-374 | a fresh request that takes a leaving peer's orphans holds exactly what that peer had |
| `SingleRequest.AssembledInPlace` | benliud_bt/src/SingleRequest.cpp:316-327 | in a full partition every block sits at its own offset |
| `Framing.Delivery` | benliud_bt/src/BTPeer.cpp:936-974 | whatever is sent, in whatever chunks it arrives, the handlers read those messages and no others, in order, and all of them in the end |
| `Framing.ParseSplit` | benliud_bt/src/BTPeer.cpp:936-974 | cutting a stream anywhere changes no message |
| `Framing.Receiver.Receive` | benliud_bt/src/BTPeer.cpp:455-474 | after each chunk the dispatched messages and the buffer are those of the whole stream |
| `Framing.Receiver.ProcessData` | benliud_bt/src/BTPeer.cpp:936-974 | the loop dispatches every complete message up to an unacceptable length, which closes |
| `Framing.CutsDoNotMatter` | benliud_bt/src/BTPeer.cpp:936-974 | two receivers of the same bytes agree |
| `Framing.HandlerUndoesSender` | benliud_bt/src/BTPeer.cpp:1261-1281 | every handler reads back what its sender was given; it does so, and the frame is accepted, exactly for messages within the limits, and what it reads is never anything else |
| `Framing.EverythingTyped` | benliud_bt/src/BTPeer.cpp:705-719 | every 32-bit number is an index a sender can be given |
| `Framing.FitsIff` | benliud_bt/src/BTPeer.cpp:948-962 | a frame is accepted exactly when the message loop cuts it out of the stream as it was sent |
| `Framing.PieceArrivesIff` | benliud_bt/src/BTPeer.cpp:952-958 | a block is read exactly when it has 1 to 16387 bytes |
| `Framing.BitfieldArrivesIff` | benliud_bt/src/BTPeer.cpp:952-958 | a bitfield gets through exactly when the torrent has at most 131160 pieces; beyond that the receiver closes |
| `Framing.Sender.SendHave` | benliud_bt/src/BTPeer.cpp:705-719 | lays out a have message |
| `Framing.Sender.SendRequest` | benliud_bt/src/BTPeer.cpp:721-748 | lays out a request |
| `Framing.Sender.SendPieceData` | benliud_bt/src/BTPeer.cpp:750-777 | lays out a block |
| `Framing.Sender.SendPieceCancel` | benliud_bt/src/BTPeer.cpp:779-801 | lays out a cancel |
| `Framing.NetworkOrder` | benliud_bt/src/BTPeer.cpp:705-801 | numbers travel most significant byte first |
| `Availability.Torrent.DoCmdHave` | benliud_bt/src/BTPeer.cpp:1261-1345 | counts stay the number of connected peers with the piece; for a message handled after the link closed they do exactly when the index is out of range or was known; an index out of range closes the link |
| `Availability.Torrent.DoCmdBitfield` | benliud_bt/src/BTPeer.cpp:1347-1463 | the same for first and repeated bitfields; after the close exactly when the new set is what others still have of the old one |
| `Availability.Torrent.TurnAwayBitfield` | benliud_bt/src/BTPeer.cpp:1383-1428 | a peer turned away while uploading leaves the counts right exactly when nobody else has its pieces; after the link has closed exactly when nobody has a piece of its earlier set |
| `Availability.Torrent.DoCmdHaveAll` | benliud_bt/src/BTPeer.cpp:2096-2163 | have-all counts every piece once; after the link has closed the counts stay right exactly when the message is turned down or every piece was known of this peer and somebody still has it |
| `Availability.Torrent.DoCmdHaveNone` | benliud_bt/src/BTPeer.cpp:2166-2237 | have-none takes back what was counted; after the link has closed the counts stay right exactly when the message is turned down or nobody has a piece of the known set |
| `Availability.TurnedAwayIff` | benliud_bt/src/BTPeer.cpp:2182-2198 | taking a set back changes nothing exactly when every count of it is zero already |
| `Availability.Torrent.OnClose` | benliud_bt/src/BTPeer.cpp:334-353 | closing takes back the peer's set, once |
| `Availability.PieceSum.Add` | benliud_bt/src/BTPieceSum.cpp:43-52 | adds one for each piece of the set |
| `Availability.PieceSum.Subtract` | benliud_bt/src/BTPieceSum.cpp:54-64 | takes one away, not below zero |
| `Availability.PieceSum.NewPiece` | benliud_bt/src/BTPieceSum.cpp:77-84 | adds one for one piece |
| `Availability.ReplacedStaysExact` | benliud_bt/src/BTStorage.cpp:1817-1831 | replacing a linked peer's set keeps the counts exact |
| `Availability.ClosedStaysExact` | benliud_bt/src/BTPeer.cpp:278-290 | so does taking it back at close |
| `Availability.LateReplacementIff` | benliud_bt/src/BTPeer.cpp:1362-1432 | when a late replacement leaves the counters as they are |
| `Availability.AllDownAllZero` | benliud_bt/src/BTStorage.cpp:1817-1831 | with all links down every count is zero |
| `Bitset.CountExactIff` | benliud_bt/src/BTPiece.cpp:218-230 | the table-based count is the number of members exactly when no padding bit is on |
| `Bitset.TableCounts` | benliud_bt/src/BTPiece.cpp:17-32 | each of the 256 entries is the number of ones of its byte |
| `Bitset.MasksFromTop` | benliud_bt/src/BTPiece.cpp:129-141 | bits are counted from the top of the byte |
| `Bitset.SupersetPasses` | benliud_bt/src/BTPiece.cpp:45-78 | a true superset passes the quick comparison exactly when its last byte does, which it does when the smaller set has no padding bit on |
| `Bitset.SupersetFails` | benliud_bt/src/BTPiece.cpp:45-78 | a padding bit can make it fail for equal sets |
| `Bitset.PassesWithoutSuperset` | benliud_bt/src/BTPiece.cpp:45-78 | which is not a test of inclusion |
| `Bitset.BitPiece.Init` | benliud_bt/src/BTPiece.cpp:89-106 | the empty set |
| `Bitset.BitPiece.InitStream` | benliud_bt/src/BTPiece.cpp:108-127 | a stream of the right length as it is, else the empty set |
| `Bitset.BitPiece.Put` | benliud_bt/src/BTPiece.cpp:144-167 | adds or removes one index and touches no other bit |
| `Bitset.BitPiece.IsSetIff` | benliud_bt/src/BTPiece.cpp:129-142 | indices beyond the size count as set, all others by membership |
| `Bitset.BitPiece.SetAll` | benliud_bt/src/BTPiece.cpp:232-251 | every index, each padding bit as it was |
| `Bitset.BitPiece.IsAllSet` | benliud_bt/src/BTPiece.cpp:174-198 | true exactly when every index is in the set |
| `Bitset.BitPiece.IsEmpty` | benliud_bt/src/BTPiece.cpp:200-211 | true exactly when all bits are off, padding included; wrong exactly for the empty set with a padding bit on |
| `Bitset.BitPiece.GetSetedCount` | benliud_bt/src/BTPiece.cpp:218-230 | at least the number of members, equal exactly on clean data |
| `Bitset.BitPiece.Minus` | benliud_bt/src/BTPiece.cpp:254-266 | the size of the set difference, zero for different sizes |
| `Bitset.BitPiece.AtLeast` | benliud_bt/src/BTPiece.cpp:45-78 | the comparison by byte counts |
| `PeerCenter.AlwaysBalanced` | benliud_bt/src/PeerCenter.cpp:93-286 | each global counter is the sum of its session counters and the sum over all addresses of what their entries record; at most one attempt per address; out, in and connecting together at most the larger of 4 and the number of sessions |
| `PeerCenter.BooksBalance` | benliud_bt/src/PeerCenter.cpp:93-286 | the same for any state that agrees with its outstanding links |
| `PeerCenter.HashIPInjective` | benliud_bt/src/PeerCenter.cpp:485-495 | two addresses never share an entry |
| `PeerCenter.SameAddress` | benliud_bt/src/PeerCenter.cpp:59-76 | the entry found for an address is its own |
| `PeerCenter.PeerCenter.GetPeerInfoToLink` | benliud_bt/src/PeerCenter.cpp:93-180 | an address is found exactly when both limits leave room and a candidate exists; it may be tried now, has a port, no attempt at it is under way, the session has no link to it and it has room for one more; it has the best priority, the first in key order among equals; the attempt is booked |
| `PeerCenter.CandidateIff` | benliud_bt/include/PeerCenter.h:169-187 | who is a candidate, in terms of delays, bans, port and the outstanding attempts and links |
| `PeerCenter.BannedIsLeftAlone` | benliud_bt/include/PeerCenter.h:171-173 | an address whose link was closed is not handed out before its ban and its delay are over |
| `PeerCenter.FailedIsLeftAlone` | benliud_bt/include/PeerCenter.h:171-175 | nor after a failed attempt before its delay is over, nor to a session that wants a proven address |
| `PeerCenter.UnderWayIsLeftAlone` | benliud_bt/include/PeerCenter.h:177 | while one session is at it no session gets it |
| `PeerCenter.LinkedIsLeftAlone` | benliud_bt/include/PeerCenter.h:179 | a session that is linked to it does not get it again |
| `PeerCenter.CallerIsLeftAlone` | benliud_bt/include/PeerCenter.h:183 | an address known only from its own call has no port and is not handed out |
| `PeerCenter.UntouchedFirst` | benliud_bt/include/PeerCenter.h:271-345 | the best priority is that of the addresses nobody has had to do with, and of no other |
| `PeerCenter.UntriedPriority` | benliud_bt/include/PeerCenter.h:271-345 | an untried address that has linked to us ranks by how few of its links are up |
| `PeerCenter.ProvenPriority` | benliud_bt/include/PeerCenter.h:271-345 | a proven one without a link ranks by acquaintance while no bytes have passed |
| `PeerCenter.GenerousFirst` | benliud_bt/include/PeerCenter.h:271-345 | and then by what it gave for what it got, in seven steps |
| `PeerCenter.LinkedOrFailedPriority` | benliud_bt/include/PeerCenter.h:271-345 | a linked or failed one ranks lower the more often it did |
| `PeerCenter.PeerCenter.LinkReport` | benliud_bt/src/PeerCenter.cpp:184-234 | an attempt ends, becoming a link when it succeeded; successes and failures in a row are counted |
| `PeerCenter.PeerCenter.CloseReport` | benliud_bt/src/PeerCenter.cpp:237-286 | a link ends in the direction it had |
| `PeerCenter.PeerCenter.TryAcceptPeerLink` | benliud_bt/src/PeerCenter.cpp:290-378 | accepted exactly when there is room and the address, if known, has at most two links and no ban |
| `PeerCenter.PeerCenter.EndAttempt` | benliud_bt/src/PeerCenter.cpp:497-539 | an attempt that reached nobody or found no room ends without a link |
| `PeerCenter.PeerCenter.GiveUpLink` | benliud_bt/src/PeerCenter.cpp:444-457 | an attempt that is given up only loses its connecting bit |
| `PeerCenter.PeerCenter.AddAvialablePeerInfo` | benliud_bt/src/PeerCenter.cpp:59-90 | new exactly when the address has no entry; a changed port resets its history |
| `PeerCenter.PeerCenter.CheckBitSet` | benliud_bt/src/PeerCenter.cpp:461-482 | an address without an entry gets one |
| `PeerCenter.PeerCenter.DownloadFinish` | benliud_bt/src/PeerCenter.cpp:415-436 | bans and delays are forgotten when the download ends, once |
| `PeerCenter.BeginKeeps` | benliud_bt/include/PeerCenter.h:169-191 | starting an attempt keeps entries and links in agreement and the bound on them |
| `PeerCenter.EstablishKeeps` | benliud_bt/include/PeerCenter.h:193-213 | so does establishing a link |
| `PeerCenter.EndKeeps` | benliud_bt/include/PeerCenter.h:580-583 | so does ending an attempt |
| `PeerCenter.AcceptKeeps` | benliud_bt/include/PeerCenter.h:547-565 | so does accepting one |
| `PeerCenter.CloseOutgoingKeeps` | benliud_bt/include/PeerCenter.h:451-457 | so does closing an outgoing link |
| `PeerCenter.CloseIncomingKeeps` | benliud_bt/include/PeerCenter.h:370-381 | so does closing an incoming one |
| `BigInteger.Add` | thirdparty/bigint/bigint.cpp:324-359 | digit by digit addition with carries is addition, in canonical form |
| `BigInteger.Subtract` | thirdparty/bigint/bigint.cpp:361-388 | subtraction with borrows is subtraction when the first is not smaller, in canonical form |
| `BigInteger.MultiplyByDigit` | thirdparty/bigint/bigint.cpp:398-418 | one row of a long multiplication |
| `BigInteger.Multiply` | thirdparty/bigint/bigint.cpp:390-429 | long multiplication is multiplication, in canonical form |
| `BigInteger.Divide` | thirdparty/bigint/bigint.cpp:433-453 | n = result * den + rem with 0 <= rem < den, for den up to the bound and at most 10000 digits |
| `BigInteger.RemainderFitsIff` | thirdparty/bigint/bigint.cpp:438-443 | that bound is exactly the one up to which no remainder step leaves 64 bits |
| `BigInteger.ComparisonsAgree` | thirdparty/bigint/bigint.cpp:281-321 | equal, less and greater are those of the integers |
| `BigInteger.Plus` | thirdparty/bigint/bigint.cpp:156-181 | signed addition, never minus zero |
| `BigInteger.Minus` | thirdparty/bigint/bigint.cpp:183-187 | signed subtraction |
| `BigInteger.Times` | thirdparty/bigint/bigint.cpp:189-200 | signed multiplication |
| `BigInteger.DividedBy` | thirdparty/bigint/bigint.cpp:203-215 | quotient of the magnitudes with the product's sign |
| `BigInteger.Modulo` | thirdparty/bigint/bigint.cpp:218-231 | remainder of the magnitudes with the product's sign |
| `BigInteger.DivisionLawIff` | thirdparty/bigint/bigint.cpp:203-231 | a = (a / b) * b + a % b exactly when b is positive or divides a |
| `BigInteger.ToInt` | thirdparty/bigint/bigint.cpp:470-480 | the value of a digit string |
| `BigInteger.ToString` | thirdparty/bigint/bigint.cpp:457-468 | the canonical digits of a number |
| `BigInteger.CanonicalUnique` | thirdparty/bigint/bigint.cpp:281-286 | two canonical strings of one value are the same string |
| `StreamingHash.StreamingHash.Add` | thirdparty/crypto/sha1.cpp:156-196 | bytes may be added in any portions: the state depends only on all of them |
| `StreamingHash.PortionsDoNotMatter` | thirdparty/crypto/md5.cpp:210-250 | two runs given the same bytes agree, whatever the portions and whatever was read in between |
| `StreamingHash.StreamingHash.GetHash` | thirdparty/crypto/sha1.cpp:287-308 | the digest of everything added, by the padding of the standard; the state is as before, so adding can go on |
| `StreamingHash.ShortDigest` | thirdparty/crypto/sha1.cpp:200-262 | the digest of up to 55 bytes is one compression of the padded message, of 56 to 63 bytes two |
| `StreamingHash.AbsorbBlock` | thirdparty/crypto/sha1.cpp:185-190 | absorbing one block is one compression |
| `StreamingHash.LengthOrder` | thirdparty/crypto/sha1.cpp:239-255 | the length bytes have the least significant last in one order and first in the other |
| `StreamingHash.StreamingHash.ProcessBuffer` | thirdparty/crypto/sha1.cpp:200-262 | pads and compresses the rest in one block or two |
| `StreamingHash.StreamingHash.PaddedLength` | thirdparty/crypto/sha1.cpp:208-221 | the padded length worked out in bits is that of the standard for every length modulo 64 |
| `StreamingHash.StreamingHash.PadOut` | thirdparty/crypto/sha1.cpp:223-236 | the one bit and the zeros, running over into a second block when needed |
| `StreamingHash.StreamingHash.WriteBigEndian` | thirdparty/crypto/sha1.cpp:247-255 | the length with its most significant byte first |
| `StreamingHash.StreamingHash.WriteLittleEndian` | thirdparty/crypto/md5.cpp:301-309 | the length with its least significant byte first |
| `StreamingHash.PaddedInjective` | thirdparty/crypto/sha1.cpp:200-262 | no two messages below 2^61 bytes are padded to the same blocks |
| `StreamingHash.AbsorbSplit` | thirdparty/crypto/sha1.cpp:185-190 | whole blocks first and the rest later is all at once |

## Left out

- Storage.Storage.ReadData: an offset past the end of the piece is not modelled; there the 32-bit length wraps before any layer is asked. Nor is a length so near 2^32 that offset plus length wraps, which then hits a buffered block of the piece that does not cover the request (also in `SearchReadBuffer` and `ReadDataFromCache`). For pieces over 2 MiB nothing is promised of the bytes a grow byte may have hit.
- Storage.Storage.SearchReadBuffer: offset plus length is not wrapped at 32 bits.
- Storage.Storage.ReadDataFromCache: the same; and an offset past the end of the piece is excluded.
- Storage.Storage.SmartWriteCache: where the clock cuts the loops short is left open; file errors and their return codes are not modelled.
- Storage.Storage.JobInit: the edge recheck that runs with a saved bitset is left out, so a saved bitset is trusted as it is.
- Storage.Storage.GenPriorityBitSet: the preview bonus is computed with integer division instead of a float quotient.
- Storage.Storage.PieceDistanceFromLastWrite: a mark is never unset; in the engine it is only set during start-up.
- Assignment.TaskBoard.GetPieceTask: the percentage for choosing the rarest piece, which the engine derives from a float, is a parameter; fewer than 0x0FFFFFFF peers have a piece.
- Handshake.Conversation.DeliveredMeansFinished: the key exchange is taken as done, both sides holding the same two keys and hashes, and their encryptors exist from the start; synchronisation marks do not occur by accident in the paddings; what the accepting side does after it has taken the opening for a plain handshake is left out, as are the retry 1024 bytes further on in the keystream and the unencrypted mode, which this pair of endpoints never uses.
- Handshake.Conversation.SendFromA: data is enciphered in one go; the engine slices it at 32 KiB, which gives the same bytes (`CipherConcat`).
- Handshake.Acceptor.Receive: what is deciphered stays in the buffer; its consumption is modelled in `Framing`.
- Framing.Receiver.ProcessData: covers the loop after both handshakes; messages outside the nine modelled ones are dispatched but not read.
- Availability.Torrent.DoCmdBitfield: sets are given as sets of indices; `Bitset` shows what the packed bytes mean. Replies that the handlers send are left out.
- Bitset.BitPiece.IsAllSet: a set of size zero, for which the engine's loop bound wraps, is excluded.
- PeerCenter.AlwaysBalanced: each outstanding attempt and link is reported once, as the callers are meant to do; the give-up of an accepted link, which has no caller, is left out.
- PeerCenter.PeerCenter.CloseReport: the delays after each close reason are parameters; peer ids, encryption preference and recorded bitsets are left out; session bit masks are sets.
- PeerCenter.PeerCenter.EndAttempt: stands for both reports of a reached peer without a link; their delays are a parameter.
- BigInteger.Divide: more than 10000 digits overrun the engine's work string and are excluded, as are larger divisors.
- Reception.Reception.TakeUp: the padding range is a parameter; computing it from the virtual files is left out.
- Reception.Reception.AskShared: the request messages themselves and the speed-dependent limits of a connection are left out.
- Sharing.ShareBoard.GetShareTask: the unused overlap and give-up calls are left out.
- StreamingHash.StreamingHash.GetHash: returns the hash words; their hexadecimal form is left out. The compression functions themselves are not modelled.
- Changes of file priority during a run and rebuilding the file list: they revoke finished pieces and change which files are written.
- Windows, trackers, DHT, UPnP, proxies, the socket layer, threads and locks.
- Diffie-Hellman: its modular power is a stub in the repository.
- Text codecs (URL escapes, UTF-8, hexadecimal): round trips of short loops that no other result needs.
- Choke, interest and speed control.
