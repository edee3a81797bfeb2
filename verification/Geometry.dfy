/**
  The torrent as one byte range [0, Total), cut into pieces of `pieceLength`
  bytes and tiled by files: real ones, unselected ones, empty ones and virtual
  padding. Everything here is a constant of a running task.
*/
module Geometry {
  /** One entry of the file list as it stands once the files have been opened. */
  datatype FileEntry = FileEntry(
    offset: nat,      // global position of the first byte
    size: nat,
    vfile: bool,      // padding that exists only in the torrent
    priority: nat,    // 0 is "not downloaded"; bit 0x100 is the preview flag
    open: bool,       // the handle is valid
    head: int,        // first piece of the file
    tail: int         // one past its last piece
  ) {
    function End(): nat { offset + size }

    /** Data may be written to the file. */
    predicate Writable() { priority != 0 && open && !vfile }

    /** Data may be read from the file; padding reads as zeros without a handle. */
    predicate Readable() { open || vfile }

    predicate Contains(g: int) { offset <= g < End() }

    /** The file's piece range covers piece i. */
    predicate Covers(i: int) { head <= i < tail }
  }

  function HeadIndex(offset: nat, pieceLength: nat): int
    requires pieceLength > 0
  {
    offset / pieceLength
  }

  function TailIndex(end: nat, pieceLength: nat): int
    requires pieceLength > 0
  {
    if end % pieceLength != 0 then end / pieceLength + 1 else end / pieceLength
  }

  datatype Layout = Layout(pieceLength: nat, pieceCount: nat, files: seq<FileEntry>) {

    function Total(): nat {
      if files == [] then 0 else files[|files| - 1].End()
    }

    ghost predicate Tiled() {
      (files != [] ==> files[0].offset == 0) &&
      forall i :: 0 < i < |files| ==> files[i].offset == files[i - 1].End()
    }

    ghost predicate Valid() {
      && pieceLength > 0
      && Tiled()
      && pieceCount * pieceLength - pieceLength < Total() <= pieceCount * pieceLength
      && forall f :: f in files ==>
           && f.head == HeadIndex(f.offset, pieceLength)
           && f.tail == TailIndex(f.End(), pieceLength)
           && (f.vfile ==> f.priority == 0 && !f.open)
           && (f.priority != 0 ==> f.open)
    }

    predicate HasPiece(i: int) { 0 <= i < pieceCount }

    function Start(i: int): int { i * pieceLength }

    /** Every piece has the nominal length but the last, which takes what is left. */
    function PieceLength(i: int): nat
      requires pieceLength > 0
    {
      if i != pieceCount - 1 then pieceLength
      else
        var left := Total() % pieceLength;
        if left != 0 then left else pieceLength
    }

    ghost predicate InPiece(i: int, g: int)
      requires pieceLength > 0
    {
      Start(i) <= g < Start(i) + PieceLength(i)
    }

    /** Index of the first file that contains g, or |files| when there is none. */
    function Find(g: int, from: nat): (k: nat)
      requires from <= |files|
      ensures from <= k <= |files|
      ensures k < |files| ==> files[k].Contains(g)
      ensures forall j :: from <= j < k ==> !files[j].Contains(g)
      decreases |files| - from
    {
      if from == |files| then from
      else if files[from].Contains(g) then from
      else Find(g, from + 1)
    }

    function FileAt(g: int): nat { Find(g, 0) }

    /** A first byte of some file lies in piece i, or a file starts with it. */
    predicate IsEdge(i: int) {
      exists f :: f in files && f.head == i
    }

    /** A selected, non-empty, real file overlaps piece i. */
    predicate Wanted(i: int) {
      exists f :: f in files && !f.vfile && f.size != 0 && f.priority % 256 != 0 && f.Covers(i)
    }
  }

  // ---------------------------------------------------------------- arithmetic

  lemma MulOrder(i: int, j: int, p: nat)
    requires i < j
    ensures i * p + p <= j * p
  {
    var d := j - i - 1;
    assert j * p == i * p + p + d * p;
    assert d * p >= 0;
  }

  lemma DivBounds(g: nat, p: nat)
    requires p > 0
    ensures (g / p) * p <= g < (g / p) * p + p
  {
    assert g == p * (g / p) + g % p;
  }

  lemma DivUnique(g: nat, p: nat, i: int)
    requires p > 0
    requires i * p <= g < i * p + p
    ensures g / p == i
  {
    DivBounds(g, p);
    if g / p < i { MulOrder(g / p, i, p); }
    if i < g / p { MulOrder(i, g / p, p); }
  }

  lemma ModFromDiv(g: nat, p: nat, i: int)
    requires p > 0
    requires i * p <= g < i * p + p
    ensures g % p == g - i * p
  {
    DivUnique(g, p, i);
    assert g == p * (g / p) + g % p;
    assert p * (g / p) == i * p;
  }

  // --------------------------------------------------------- pieces and files

  lemma PieceFits(l: Layout, i: int)
    requires l.Valid() && l.HasPiece(i)
    ensures 0 < l.PieceLength(i) <= l.pieceLength
    ensures 0 <= l.Start(i) && l.Start(i) + l.PieceLength(i) <= l.Total()
  {
    var p := l.pieceLength;
    assert i * p >= 0;
    if i == l.pieceCount - 1 {
      assert i * p == l.pieceCount * p - p;
      if l.Total() == l.pieceCount * p {
        assert l.Total() == (i + 1) * p;
        ModFromDiv(l.Total(), p, i + 1);
      } else {
        ModFromDiv(l.Total(), p, i);
      }
    } else {
      MulOrder(i, l.pieceCount - 1, p);
      assert (l.pieceCount - 1) * p == l.pieceCount * p - p;
    }
  }

  /** Distinct pieces own disjoint byte ranges. */
  lemma PiecesDisjoint(l: Layout, i: int, j: int, g: int)
    requires l.Valid() && l.HasPiece(i) && l.HasPiece(j)
    requires l.InPiece(i, g) && l.InPiece(j, g)
    ensures i == j
  {
    PieceFits(l, i);
    PieceFits(l, j);
    if i < j { MulOrder(i, j, l.pieceLength); }
    if j < i { MulOrder(j, i, l.pieceLength); }
  }

  lemma {:induction false} FilesInOrder(l: Layout, i: nat, j: nat)
    requires l.Tiled() && i < j < |l.files|
    ensures l.files[i].End() <= l.files[j].offset
    decreases j
  {
    if i < j - 1 { FilesInOrder(l, i, j - 1); }
  }

  /** Every global position below the total lies in exactly one file. */
  lemma {:induction false} PositionHasFile(l: Layout, g: int, n: nat)
    requires l.Tiled() && 0 < n <= |l.files| && 0 <= g < l.files[n - 1].End()
    ensures exists k :: 0 <= k < n && l.files[k].Contains(g)
    decreases n
  {
    if g >= l.files[n - 1].offset {
      assert l.files[n - 1].Contains(g);
    } else {
      PositionHasFile(l, g, n - 1);
    }
  }

  lemma FileAtExists(l: Layout, g: int)
    requires l.Tiled() && 0 <= g < l.Total()
    ensures l.FileAt(g) < |l.files|
  {
    PositionHasFile(l, g, |l.files|);
  }

  lemma FileAtUnique(l: Layout, g: int, k: nat)
    requires l.Tiled() && k < |l.files| && l.files[k].Contains(g)
    ensures l.FileAt(g) == k
  {
    var j := l.FileAt(g);
    if j < k { FilesInOrder(l, j, k); }
  }

  /** A file's end never exceeds the total. */
  lemma FileWithinTotal(l: Layout, k: nat)
    requires l.Tiled() && k < |l.files|
    ensures l.files[k].End() <= l.Total()
  {
    if k < |l.files| - 1 { FilesInOrder(l, k, |l.files| - 1); }
  }

  lemma HeadBefore(offset: nat, p: nat, i: int)
    requires p > 0
    ensures HeadIndex(offset, p) <= i <==> offset < i * p + p
  {
    var h := offset / p;
    DivBounds(offset, p);
    if h < i { MulOrder(h, i, p); }
    if i < h { MulOrder(i, h, p); }
  }

  lemma TailAfter(end: nat, p: nat, i: int)
    requires p > 0
    ensures i < TailIndex(end, p) <==> i * p < end
  {
    var q := end / p;
    DivBounds(end, p);
    assert end == p * q + end % p;
    if q < i { MulOrder(q, i, p); }
    if i < q { MulOrder(i, q, p); }
  }

  /** [head, tail) as an inequality on byte positions. */
  lemma CoversMeansMeets(l: Layout, k: nat, i: int)
    requires l.Valid() && k < |l.files|
    ensures var f := l.files[k];
            f.Covers(i) <==> f.offset < l.Start(i) + l.pieceLength && l.Start(i) < f.End()
  {
    var f := l.files[k];
    assert f in l.files;
    HeadBefore(f.offset, l.pieceLength, i);
    TailAfter(f.End(), l.pieceLength, i);
  }

  /** [head, tail) of a non-empty file is exactly the set of pieces it shares a byte with. */
  lemma CoversMeansOverlap(l: Layout, k: nat, i: int)
    requires l.Valid() && k < |l.files| && l.files[k].size > 0
    ensures l.files[k].Covers(i) <==>
              l.HasPiece(i) && exists g :: l.InPiece(i, g) && l.files[k].Contains(g)
  {
    CoversMeansMeets(l, k, i);
    if l.files[k].Covers(i) {
      CoveredPieceExists(l, k, i);
      PieceFits(l, i);
      var f := l.files[k];
      var g := if l.Start(i) >= f.offset then l.Start(i) else f.offset;
      if i == l.pieceCount - 1 { LastPieceEnds(l, i); }
      FileWithinTotal(l, k);
      assert l.InPiece(i, g) && f.Contains(g);
    } else if l.HasPiece(i) {
      PieceFits(l, i);
    }
  }

  lemma CoveredPieceExists(l: Layout, k: nat, i: int)
    requires l.Valid() && k < |l.files| && l.files[k].Covers(i)
    ensures l.HasPiece(i)
  {
    assert l.files[k] in l.files;
    FileWithinTotal(l, k);
    CoveredBelow(l.files[k].offset, l.files[k].End(), l.pieceLength, i, l.pieceCount);
  }

  lemma CoveredBelow(offset: nat, end: nat, p: nat, i: int, n: nat)
    requires p > 0 && HeadIndex(offset, p) <= i < TailIndex(end, p)
    requires end <= n * p
    ensures 0 <= i < n
  {
    DivBounds(offset, p);
    if i < 0 { MulOrder(HeadIndex(offset, p), 0, p); }
    TailAfter(end, p, i);
    if n < i { MulOrder(n, i, p); }
  }

  lemma LastPieceEnds(l: Layout, i: int)
    requires l.Valid() && l.HasPiece(i) && i == l.pieceCount - 1
    ensures l.Start(i) + l.PieceLength(i) == l.Total()
  {
    var p := l.pieceLength;
    assert i * p == l.pieceCount * p - p;
    if l.Total() == l.pieceCount * p {
      assert l.Total() == (i + 1) * p;
      ModFromDiv(l.Total(), p, i + 1);
    } else {
      ModFromDiv(l.Total(), p, i);
    }
  }

  lemma StartsInside(l: Layout, i: int, j: nat)
    requires l.Valid() && j < |l.files|
    requires l.Start(i) <= l.files[j].offset < l.Start(i) + l.pieceLength
    ensures l.IsEdge(i)
  {
    var f := l.files[j];
    DivUnique(f.offset, l.pieceLength, i);
    assert f in l.files && f.head == i;
  }

  /**
    Every piece that touches two files is an edge piece: if piece i is not the
    first piece of any file, all its bytes lie in one file.
  */
  lemma InnerPieceInOneFile(l: Layout, i: int)
    requires l.Valid() && l.HasPiece(i) && !l.IsEdge(i)
    ensures var k := l.FileAt(l.Start(i));
            k < |l.files| && forall g :: l.InPiece(i, g) ==> l.FileAt(g) == k
  {
    PieceFits(l, i);
    FileAtExists(l, l.Start(i));
    var k := l.FileAt(l.Start(i));
    forall g | l.InPiece(i, g) ensures l.FileAt(g) == k {
      FileAtExists(l, g);
      var j := l.FileAt(g);
      if j < k { FilesInOrder(l, j, k); }
      if k < j {
        FilesInOrder(l, k, j);
        StartsInside(l, i, j);
      }
    }
  }

  /** An inner piece that is wanted lies inside a file it can be written to. */
  lemma InnerWantedIsWritable(l: Layout, i: int)
    requires l.Valid() && l.HasPiece(i) && !l.IsEdge(i) && l.Wanted(i)
    ensures var k := l.FileAt(l.Start(i)); k < |l.files| && l.files[k].Writable()
  {
    InnerPieceInOneFile(l, i);
    var f :| f in l.files && !f.vfile && f.size != 0 && f.priority % 256 != 0 && f.Covers(i);
    var j :| 0 <= j < |l.files| && l.files[j] == f;
    CoversMeansOverlap(l, j, i);
    var g :| l.InPiece(i, g) && f.Contains(g);
    FileAtUnique(l, g, j);
  }
}
