/**
  The state of the piece store as a value, the invariant that ties its four
  layers (read buffer, edge cache, write cache, disk) to one map from piece to
  bytes, and the proof that every kind of step keeps that invariant.
*/
module StorageState {
  import opened Common
  import opened Geometry
  import opened ReadBuffer

  /** Pieces up to this length are the ones the file-growing write is safe for. */
  const GROW_SAFE_LENGTH: nat := 2 * 1024 * 1024

  /** Content of each file as the file system holds it. */
  type Disk = seq<seq<byte>>

  datatype Store = Store(
    disk: Disk,
    finished: set<int>,
    writeCache: map<int, seq<byte>>,
    edgeCache: map<int, seq<byte>>,
    readBuffer: seq<BufferBlock>,
    lastWrite: seq<int>
  )

  // ------------------------------------------------------------- the disk view

  ghost predicate DiskFits(l: Layout, disk: Disk) {
    |disk| == |l.files| && forall k :: 0 <= k < |disk| ==> |disk[k]| == l.files[k].size
  }

  /** The stored byte at a global position. */
  ghost function Cell(l: Layout, disk: Disk, g: int): byte
    requires l.Tiled() && DiskFits(l, disk) && 0 <= g < l.Total()
  {
    FileAtExists(l, g);
    var k := l.FileAt(g);
    disk[k][g - l.files[k].offset]
  }

  ghost predicate ReadableAt(l: Layout, g: int) {
    l.FileAt(g) < |l.files| && l.files[l.FileAt(g)].Readable()
  }

  ghost predicate WritableAt(l: Layout, g: int) {
    l.FileAt(g) < |l.files| && l.files[l.FileAt(g)].Writable()
  }

  /** What reading a position yields: a file without a handle reads as zero. */
  ghost function ByteAt(l: Layout, disk: Disk, g: int): byte
    requires l.Tiled() && DiskFits(l, disk) && 0 <= g < l.Total()
  {
    FileAtExists(l, g);
    if l.files[l.FileAt(g)].open then Cell(l, disk, g) else 0
  }

  /** `after` is `before` with data laid over [start, start + |data|), writable files only. */
  ghost predicate Wrote(l: Layout, before: Disk, after: Disk, start: int, data: seq<byte>)
    requires l.Tiled() && DiskFits(l, before) && DiskFits(l, after)
  {
    forall g :: 0 <= g < l.Total() ==>
      Cell(l, after, g) == if start <= g < start + |data| && WritableAt(l, g)
                           then data[g - start] else Cell(l, before, g)
  }

  /** Overwriting part of one file changes exactly the global positions it covers. */
  lemma WriteInFile(l: Layout, disk: Disk, k: nat, at: nat, data: seq<byte>)
    requires l.Tiled() && DiskFits(l, disk) && k < |disk| && at + |data| <= |disk[k]|
    ensures var disk' := disk[k := disk[k][..at] + data + disk[k][at + |data|..]];
            && DiskFits(l, disk')
            && forall g :: 0 <= g < l.Total() ==>
                 Cell(l, disk', g) == if l.files[k].offset + at <= g < l.files[k].offset + at + |data|
                                      then data[g - l.files[k].offset - at] else Cell(l, disk, g)
  {
    var disk' := disk[k := disk[k][..at] + data + disk[k][at + |data|..]];
    forall g | 0 <= g < l.Total()
      ensures Cell(l, disk', g) == if l.files[k].offset + at <= g < l.files[k].offset + at + |data|
                                   then data[g - l.files[k].offset - at] else Cell(l, disk, g)
    {
      FileAtExists(l, g);
      if l.files[k].Contains(g) { FileAtUnique(l, g, k); }
    }
  }

  // -------------------------------------------------------------- the invariant

  ghost predicate Shapes(l: Layout, s: Store) {
    && DiskFits(l, s.disk)
    && |s.lastWrite| == |l.files|
    && forall i :: i in s.finished ==> l.HasPiece(i)
  }

  /** Caches hold what was accepted; an edge piece accepted this run stays in memory. */
  ghost predicate MemoryHolds(l: Layout, s: Store, content: map<int, seq<byte>>)
    requires l.Valid()
  {
    && content.Keys == s.finished
    && (forall i :: i in s.finished ==> |content[i]| == l.PieceLength(i))
    && (forall i :: i in s.writeCache ==>
          i in s.finished && s.writeCache[i] == content[i] && l.Wanted(i) && (l.IsEdge(i) ==> i in s.edgeCache))
    && (forall i :: i in s.edgeCache ==> i in s.finished && s.edgeCache[i] == content[i] && l.IsEdge(i))
  }

  predicate OnDisk(s: Store, i: int) { i in s.finished && i !in s.writeCache }

  ghost predicate Stored(l: Layout, disk: Disk, i: int, data: seq<byte>)
    requires l.Valid() && DiskFits(l, disk) && l.HasPiece(i) && |data| == l.PieceLength(i)
  {
    PieceFits(l, i);
    forall g :: l.InPiece(i, g) ==> ByteAt(l, disk, g) == data[g - l.Start(i)]
  }

  ghost predicate DiskHolds(l: Layout, s: Store, content: map<int, seq<byte>>)
    requires l.Valid() && Shapes(l, s) && MemoryHolds(l, s, content)
  {
    forall i :: OnDisk(s, i) && i !in s.edgeCache ==> Stored(l, s.disk, i, content[i])
  }

  predicate Real(l: Layout, k: int)
  {
    0 <= k < |l.files| && !l.files[k].vfile
  }

  /** Each real file's mark is at least its head and every on-disk piece in its range. */
  ghost predicate Recorded(l: Layout, s: Store)
    requires Shapes(l, s)
  {
    && (forall k :: Real(l, k) ==> l.files[k].head <= s.lastWrite[k] <= l.files[k].tail)
    && (forall k, i :: Real(l, k) && OnDisk(s, i) && l.files[k].Covers(i) ==> i <= s.lastWrite[k])
  }

  /** Buffered blocks are parts of pieces. Whether they hold what the pieces consist of is another matter. */
  ghost predicate BufferFits(l: Layout, buf: Buffer)
    requires l.Valid()
  {
    forall b :: b in buf ==>
      |b.data| <= BUFFER_BLOCK_SIZE && l.HasPiece(b.pIndex) && b.offset + |b.data| <= l.PieceLength(b.pIndex)
  }

  /** The part of the invariant that does not involve the read buffer. */
  ghost predicate Core(l: Layout, s: Store, content: map<int, seq<byte>>) {
    && l.Valid()
    && Shapes(l, s)
    && MemoryHolds(l, s, content)
    && Recorded(l, s)
    && (l.pieceLength <= GROW_SAFE_LENGTH ==> DiskHolds(l, s, content))
  }

  function Base(s: Store): Store { s.(readBuffer := []) }

  ghost predicate Inv(l: Layout, s: Store, content: map<int, seq<byte>>) {
    && Core(l, Base(s), content)
    && content.Keys == s.finished
    && BufferFits(l, s.readBuffer)
  }

  /** What the methods need to know of the invariant before they act. */
  lemma InvFacts(l: Layout, s: Store, content: map<int, seq<byte>>)
    requires Inv(l, s, content)
    ensures Shapes(l, s) && MemoryHolds(l, s, content) && BufferFits(l, s.readBuffer)
    ensures forall k :: Real(l, k) ==> l.files[k].head <= s.lastWrite[k] <= l.files[k].tail
  {
  }

  /** At the start the finished pieces are what the disk holds and the caches are empty. */
  lemma StartKeepsInv(l: Layout, s: Store, content: map<int, seq<byte>>)
    requires l.Valid() && Shapes(l, s) && Recorded(l, s) && content.Keys == s.finished
    requires s.writeCache == map[] && s.edgeCache == map[] && s.readBuffer == []
    requires forall i :: i in s.finished ==>
               |content[i]| == l.PieceLength(i) && Stored(l, s.disk, i, content[i])
    ensures Inv(l, s, content)
  {
  }

  /** The read buffer may change as long as its blocks are parts of pieces. */
  lemma BufferKeepsInv(l: Layout, s: Store, s': Store, content: map<int, seq<byte>>)
    requires Inv(l, s, content)
    requires s' == s.(readBuffer := s'.readBuffer) && BufferFits(l, s'.readBuffer)
    ensures Inv(l, s', content)
  {
    hide Core;
    assert Base(s') == Base(s);
  }

  /** A search of the read buffer keeps the invariant; what it answers is at most one block long. */
  lemma SearchKeepsInv(l: Layout, s: Store, content: map<int, seq<byte>>, i: int, from: nat, len: nat)
    requires Inv(l, s, content)
    ensures Inv(l, s.(readBuffer := Searched(s.readBuffer, i, from, len)), content)
    ensures Hit(s.readBuffer, i, from, len) ==> len <= BUFFER_BLOCK_SIZE
  {
    hide Core;
    SearchedSameBlocks(s.readBuffer, i, from, len);
    BufferKeepsInv(l, s, s.(readBuffer := Searched(s.readBuffer, i, from, len)), content);
  }

  /** So does putting what was read of a piece at the back and dropping the oldest blocks. */
  lemma BufferingKeepsInv(l: Layout, s: Store, content: map<int, seq<byte>>, i: int, offset: nat,
                          data: seq<byte>, capacity: nat)
    requires Inv(l, s, content) && l.HasPiece(i) && offset + |data| <= l.PieceLength(i)
    ensures Inv(l, s.(readBuffer := Newest(s.readBuffer + BlocksOf(i, offset, data), capacity)), content)
  {
    hide Core;
    BlocksOfRange(i, offset, data);
    BufferKeepsInv(l, s, s.(readBuffer := Newest(s.readBuffer + BlocksOf(i, offset, data), capacity)), content);
  }

  // ------------------------------------------------------------------ accepting

  /** The new state once a wanted, unfinished piece has been accepted. */
  function Accept(s: Store, edge: bool, i: int, data: seq<byte>): Store {
    s.(finished := s.finished + {i},
       writeCache := s.writeCache[i := data],
       edgeCache := if edge then s.edgeCache[i := data] else s.edgeCache)
  }

  lemma AcceptKeepsCore(l: Layout, s: Store, content: map<int, seq<byte>>, i: int, data: seq<byte>)
    requires Core(l, s, content)
    requires l.HasPiece(i) && i !in s.finished && l.Wanted(i) && |data| == l.PieceLength(i)
    ensures Core(l, Accept(s, l.IsEdge(i), i, data), content[i := data])
  {
    var s' := Accept(s, l.IsEdge(i), i, data);
    forall j | OnDisk(s', j) ensures OnDisk(s, j) && j != i {}
  }

  lemma AcceptKeepsInv(l: Layout, s: Store, content: map<int, seq<byte>>, i: int, data: seq<byte>)
    requires Inv(l, s, content)
    requires l.HasPiece(i) && i !in s.finished && l.Wanted(i) && |data| == l.PieceLength(i)
    ensures Inv(l, Accept(s, l.IsEdge(i), i, data), content[i := data])
  {
    AcceptKeepsCore(l, Base(s), content, i, data);
    assert Base(Accept(s, l.IsEdge(i), i, data)) == Accept(Base(s), l.IsEdge(i), i, data);
    hide Core;
  }

  // ------------------------------------------------------------------- flushing

  /** First real file whose range covers the piece: the only one whose mark is moved. */
  function FirstReal(l: Layout, i: int, from: nat): (k: nat)
    requires from <= |l.files|
    ensures from <= k <= |l.files|
    ensures k < |l.files| ==> Real(l, k) && l.files[k].Covers(i)
    ensures forall j :: from <= j < k && Real(l, j) ==> !l.files[j].Covers(i)
    decreases |l.files| - from
  {
    if from == |l.files| then from
    else if !l.files[from].vfile && l.files[from].Covers(i) then from
    else FirstReal(l, i, from + 1)
  }

  function RecordMark(l: Layout, lastWrite: seq<int>, i: int): seq<int>
    requires |lastWrite| == |l.files|
  {
    var k := FirstReal(l, i, 0);
    if k < |l.files| && lastWrite[k] < i then lastWrite[k := i] else lastWrite
  }

  /** Any later file that also covers the piece starts inside it. */
  lemma LaterCoverStartsInPiece(l: Layout, i: int, j: nat, k: nat)
    requires l.Valid() && j < k < |l.files| && l.files[j].Covers(i) && l.files[k].Covers(i)
    ensures l.files[k].head == i
  {
    CoversMeansMeets(l, j, i);
    CoversMeansMeets(l, k, i);
    FilesInOrder(l, j, k);
    DivUnique(l.files[k].offset, l.pieceLength, i);
    assert l.files[k] in l.files;
  }

  ghost predicate Flushed(l: Layout, s: Store, s': Store, i: int)
    requires l.Valid() && Shapes(l, s) && i in s.writeCache
  {
    && DiskFits(l, s'.disk)
    && Wrote(l, s.disk, s'.disk, l.Start(i), s.writeCache[i])
    && s' == s.(disk := s'.disk, writeCache := s.writeCache - {i}, lastWrite := RecordMark(l, s.lastWrite, i))
  }

  lemma FlushKeepsRecorded(l: Layout, s: Store, s': Store, content: map<int, seq<byte>>, i: int)
    requires Core(l, s, content) && i in s.writeCache && Flushed(l, s, s', i)
    ensures Shapes(l, s') && Recorded(l, s')
  {
    forall k, j | Real(l, k) && OnDisk(s', j) && l.files[k].Covers(j) ensures j <= s'.lastWrite[k] {
      if j == i {
        var first := FirstReal(l, i, 0);
        if first < k { LaterCoverStartsInPiece(l, i, first, k); }
      } else {
        assert OnDisk(s, j);
      }
    }
  }

  lemma FlushStores(l: Layout, s: Store, s': Store, content: map<int, seq<byte>>, i: int)
    requires Core(l, s, content) && i in s.writeCache && i !in s.edgeCache && Flushed(l, s, s', i)
    ensures Stored(l, s'.disk, i, content[i])
  {
    InnerPieceInOneFile(l, i);
    InnerWantedIsWritable(l, i);
    PieceFits(l, i);
    forall g | l.InPiece(i, g) ensures ByteAt(l, s'.disk, g) == content[i][g - l.Start(i)] {
      assert WritableAt(l, g);
    }
  }

  lemma FlushKeepsOthers(l: Layout, s: Store, s': Store, content: map<int, seq<byte>>, i: int, j: int)
    requires Core(l, s, content) && i in s.writeCache && Flushed(l, s, s', i)
    requires l.HasPiece(j) && j != i && |content[i]| == l.PieceLength(i)
    requires j in content && |content[j]| == l.PieceLength(j) && Stored(l, s.disk, j, content[j])
    ensures Stored(l, s'.disk, j, content[j])
  {
    PieceFits(l, j);
    forall g | l.InPiece(j, g) ensures ByteAt(l, s'.disk, g) == content[j][g - l.Start(j)] {
      if l.InPiece(i, g) { PiecesDisjoint(l, i, j, g); }
      assert Cell(l, s'.disk, g) == Cell(l, s.disk, g);
    }
  }

  lemma FlushKeepsCore(l: Layout, s: Store, s': Store, content: map<int, seq<byte>>, i: int)
    requires Core(l, s, content) && i in s.writeCache && Flushed(l, s, s', i)
    ensures Core(l, s', content)
  {
    FlushKeepsRecorded(l, s, s', content, i);
    if l.pieceLength <= GROW_SAFE_LENGTH {
      forall j | OnDisk(s', j) && j !in s'.edgeCache ensures Stored(l, s'.disk, j, content[j]) {
        if j == i {
          FlushStores(l, s, s', content, i);
        } else {
          assert OnDisk(s, j);
          FlushKeepsOthers(l, s, s', content, i, j);
        }
      }
    }
  }

  // -------------------------------------------------------------- growing a file

  /** Pieces per 4 MiB step, at least one. */
  function GrowStep(pieceLength: nat): nat
    requires pieceLength > 0
  {
    var step := 4 * 1024 * 1024 / pieceLength;
    if step == 0 then 1 else step
  }

  /** The step is at least two pieces exactly when the piece length is at most 2 MiB. */
  lemma GrowStepAtLeastTwo(pieceLength: nat)
    requires pieceLength > 0
    ensures GrowStep(pieceLength) >= 2 <==> pieceLength <= GROW_SAFE_LENGTH
  {
    var q := 4 * 1024 * 1024 / pieceLength;
    DivBounds(4 * 1024 * 1024, pieceLength);
    if q >= 2 { MulAtLeast(2, q, pieceLength); }
    if q <= 1 { MulAtLeast(q, 1, pieceLength); }
  }

  lemma MulAtLeast(a: nat, b: nat, p: nat)
    requires a <= b
    ensures a * p <= b * p
  {
    if a < b { MulOrder(a, b, p); }
  }

  /** The byte that is poked lies in this piece. */
  lemma GrowLandsIn(l: Layout, mark: int)
    requires l.pieceLength > 0
    ensures var target := mark + GrowStep(l.pieceLength);
            target * l.pieceLength - 1 == l.Start(target - 1) + l.pieceLength - 1
  {
    var target := mark + GrowStep(l.pieceLength);
    assert target * l.pieceLength == (target - 1) * l.pieceLength + l.pieceLength;
  }

  /**
    The poked byte lies in a piece after the file's mark, so in none that is on
    disk, exactly when pieces are at most 2 MiB; otherwise it is the last byte
    of the marked piece itself.
  */
  lemma GrowSafeIff(l: Layout, mark: int)
    requires l.pieceLength > 0
    ensures var landed := mark + GrowStep(l.pieceLength) - 1;
            && (landed > mark <==> l.pieceLength <= GROW_SAFE_LENGTH)
            && (landed == mark <==> l.pieceLength > GROW_SAFE_LENGTH)
  {
    GrowStepAtLeastTwo(l.pieceLength);
  }

  /** One grow step on file k: the mark moves and at most one byte, at `poked`, changes. */
  ghost predicate Grew(l: Layout, s: Store, s': Store, k: nat, poked: Option<int>)
    requires l.Valid() && Shapes(l, s)
  {
    && Real(l, k)
    && DiskFits(l, s'.disk) && |s'.lastWrite| == |l.files|
    && s' == s.(disk := s'.disk, lastWrite := s'.lastWrite)
    && (forall j :: 0 <= j < |l.files| && j != k ==> s'.lastWrite[j] == s.lastWrite[j])
    && (poked.None? ==> s'.disk == s.disk && (s'.lastWrite[k] == s.lastWrite[k] || s'.lastWrite[k] == l.files[k].tail))
    && (poked.Some? ==>
          var target := s.lastWrite[k] + GrowStep(l.pieceLength);
          && s'.lastWrite[k] == target < l.files[k].tail
          && poked.value == target * l.pieceLength - 1
          && l.files[k].Contains(poked.value)
          && forall g :: 0 <= g < l.Total() && g != poked.value ==> Cell(l, s'.disk, g) == Cell(l, s.disk, g))
  }

  /** The grow byte lands in a piece that is not on disk. */
  lemma GrowMissesStoredPieces(l: Layout, s: Store, k: nat, j: int)
    requires l.Valid() && Shapes(l, s) && Recorded(l, s) && Real(l, k)
    requires l.pieceLength <= GROW_SAFE_LENGTH
    requires s.lastWrite[k] + GrowStep(l.pieceLength) < l.files[k].tail
    requires OnDisk(s, j)
    ensures !l.InPiece(j, (s.lastWrite[k] + GrowStep(l.pieceLength)) * l.pieceLength - 1)
  {
    var target := s.lastWrite[k] + GrowStep(l.pieceLength);
    GrowStepAtLeastTwo(l.pieceLength);
    GrowLandsIn(l, s.lastWrite[k]);
    assert l.files[k].Covers(target - 1);
    PieceFits(l, j);
    if j < target - 1 { MulOrder(j, target - 1, l.pieceLength); }
    if target - 1 < j { MulOrder(target - 1, j, l.pieceLength); }
  }

  lemma GrowKeepsCore(l: Layout, s: Store, s': Store, content: map<int, seq<byte>>, k: nat, poked: Option<int>)
    requires Core(l, s, content) && Grew(l, s, s', k, poked)
    ensures Core(l, s', content)
  {
    forall j, i | Real(l, j) && OnDisk(s', i) && l.files[j].Covers(i) ensures i <= s'.lastWrite[j] {
      assert OnDisk(s, i);
    }
    if l.pieceLength <= GROW_SAFE_LENGTH {
      forall j | OnDisk(s', j) && j !in s'.edgeCache ensures Stored(l, s'.disk, j, content[j]) {
        assert OnDisk(s, j);
        PieceFits(l, j);
        if poked.Some? { GrowMissesStoredPieces(l, s, k, j); }
      }
    }
  }

  // -------------------------------------------------- the steps on the whole state

  lemma FlushKeepsInv(l: Layout, s: Store, s': Store, content: map<int, seq<byte>>, i: int)
    requires Inv(l, s, content) && i in s.writeCache && s'.readBuffer == s.readBuffer
    requires Flushed(l, Base(s), Base(s'), i)
    ensures Inv(l, s', content)
  {
    FlushKeepsCore(l, Base(s), Base(s'), content, i);
  }

  lemma GrowKeepsInv(l: Layout, s: Store, s': Store, content: map<int, seq<byte>>, k: nat, poked: Option<int>)
    requires Inv(l, s, content) && s'.readBuffer == s.readBuffer
    requires Grew(l, Base(s), Base(s'), k, poked)
    ensures Inv(l, s', content)
  {
    GrowKeepsCore(l, Base(s), Base(s'), content, k, poked);
  }

  // --------------------------------------------------------- writing and reading back

  /**
    A piece written to disk reads back as itself exactly when each byte lies in a
    file that takes writes or already has that value (padding does, when the byte is zero).
  */
  lemma WriteThenRead(l: Layout, before: Disk, after: Disk, i: int, data: seq<byte>)
    requires l.Valid() && l.HasPiece(i) && |data| == l.PieceLength(i)
    requires DiskFits(l, before) && DiskFits(l, after) && Wrote(l, before, after, l.Start(i), data)
    ensures Stored(l, after, i, data) <==>
              forall g :: l.InPiece(i, g) ==>
                0 <= g < l.Total() && (WritableAt(l, g) || ByteAt(l, before, g) == data[g - l.Start(i)])
  {
    PieceFits(l, i);
    forall g | l.InPiece(i, g)
      ensures ByteAt(l, after, g) == if WritableAt(l, g) then data[g - l.Start(i)] else ByteAt(l, before, g)
    {
      FileAtExists(l, g);
      assert Cell(l, after, g) == if WritableAt(l, g) then data[g - l.Start(i)] else Cell(l, before, g);
    }
  }

  /** No byte of any other piece changes. */
  lemma WriteLeavesOtherPieces(l: Layout, before: Disk, after: Disk, i: int, data: seq<byte>, j: int, g: int)
    requires l.Valid() && l.HasPiece(i) && l.HasPiece(j) && i != j && |data| == l.PieceLength(i)
    requires DiskFits(l, before) && DiskFits(l, after) && Wrote(l, before, after, l.Start(i), data)
    requires l.InPiece(j, g)
    ensures 0 <= g < l.Total() && ByteAt(l, after, g) == ByteAt(l, before, g)
  {
    PieceFits(l, j);
    if l.InPiece(i, g) { PiecesDisjoint(l, i, j, g); }
    assert Cell(l, after, g) == Cell(l, before, g);
  }

  /** A wanted piece that is not an edge piece can be read in full once it is on disk. */
  lemma InnerWantedReadable(l: Layout, i: int)
    requires l.Valid() && l.HasPiece(i) && !l.IsEdge(i) && l.Wanted(i)
    ensures forall g :: l.InPiece(i, g) ==> ReadableAt(l, g)
  {
    InnerPieceInOneFile(l, i);
    InnerWantedIsWritable(l, i);
  }

  /**
    With pieces over 2 MiB the poke does destroy data: whenever it is carried out
    on a file whose mark is a stored inner piece of full length, that piece's last byte becomes 0x0A.
  */
  lemma GrowBreaksLargePiece(l: Layout, s: Store, k: nat, i: int, data: seq<byte>, disk': Disk)
    requires l.Valid() && Shapes(l, s) && l.HasPiece(i) && |data| == l.PieceLength(i) == l.pieceLength
    requires l.pieceLength > GROW_SAFE_LENGTH
    requires Real(l, k) && l.files[k].Writable() && s.lastWrite[k] == i
    requires var at := (i + GrowStep(l.pieceLength)) * l.pieceLength - 1 - l.files[k].offset;
             && 0 <= at < l.files[k].size
             && disk' == s.disk[k := s.disk[k][..at] + [0x0A] + s.disk[k][at + 1..]]
    requires data[|data| - 1] != 0x0A
    ensures DiskFits(l, disk') && !Stored(l, disk', i, data)
  {
    var at := (i + GrowStep(l.pieceLength)) * l.pieceLength - 1 - l.files[k].offset;
    GrowSafeIff(l, i);
    GrowLandsIn(l, i);
    WriteInFile(l, s.disk, k, at, [0x0A]);
    var g := l.Start(i) + l.pieceLength - 1;
    FileAtUnique(l, g, k);
    PieceFits(l, i);
    assert l.InPiece(i, g) && ByteAt(l, disk', g) == 0x0A;
  }
}
