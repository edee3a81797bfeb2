/**
  The piece store of a running task: what `CBTStorage` keeps about piece data,
  and the methods that move that data between the read buffer, the edge cache,
  the write cache and the files.
*/
module Storage {
  import opened Common
  import opened Geometry
  import opened Progress
  import opened ReadBuffer
  import opened StorageState

  /** Set in a file's priority when it is to be previewed while downloading. */
  const PREVIEW_FLAG: nat := 256

  /** Addition to the priority of a previewed file: front pieces first. */
  function PreviewBonus(span: int): (bonus: int)
    ensures 1 <= bonus <= 6
  {
    if span == 0 then 6
    else if 1 <= span <= 2 then 5
    else if 3 <= span <= 5 then 4
    else if 6 <= span <= 9 then 3
    else if 10 <= span <= 14 then 2
    else 1
  }

  /** The priority one real, non-empty file asks for a piece of its range. */
  function Contribution(f: FileEntry, i: int): int
  {
    var base := f.priority % 256;
    if base == 0 then 0
    else if f.priority / PREVIEW_FLAG % 2 == 0 then base
    else if f.tail - f.head >= 20 then base + PreviewBonus(20 * (i - f.head) / (f.tail - f.head))
    else base + 6
  }

  /** Of twenty equal parts the first one, two, three, four and five rank 6 to 2, in that order; the rest 1. */
  lemma PreviewBonusSteps(span: int, n: nat)
    requires span >= 0 && n < 5
    ensures n * (n + 1) / 2 <= span < (n + 1) * (n + 2) / 2 ==> PreviewBonus(span) == 6 - n
    ensures span >= 15 ==> PreviewBonus(span) == 1
  {
  }

  /** What a file asks for: nothing, its priority, or six more for each piece of a short one to be previewed. */
  lemma ContributionFacts(f: FileEntry, i: int)
    ensures f.priority % 256 == 0 ==> Contribution(f, i) == 0
    ensures f.priority % 256 != 0 && f.priority / 256 % 2 == 0 ==> Contribution(f, i) == f.priority % 256
    ensures f.priority % 256 != 0 && f.priority / 256 % 2 == 1 && f.tail - f.head < 20 ==>
              Contribution(f, i) == f.priority % 256 + 6
  {
  }

  /** In a long one to be previewed it is six more at the front, and never more towards the end, but at least one. */
  lemma PreviewFacts(f: FileEntry, i: int, j: int)
    requires f.head <= i <= j < f.tail && f.tail - f.head >= 20
    requires f.priority % 256 != 0 && f.priority / 256 % 2 == 1
    ensures Contribution(f, i) >= Contribution(f, j) > f.priority % 256
    ensures i == f.head ==> Contribution(f, i) == f.priority % 256 + 6
    ensures Contribution(f, i) == f.priority % 256 + PreviewBonus(20 * (i - f.head) / (f.tail - f.head))
  {
    hide PreviewBonus;
    DivMonotone(20 * (i - f.head), 20 * (j - f.head), f.tail - f.head);
    BonusFalls(20 * (i - f.head) / (f.tail - f.head), 20 * (j - f.head) / (f.tail - f.head));
    BonusFalls(0, 0);
  }

  lemma BonusFalls(a: int, b: int)
    requires 0 <= a <= b
    ensures PreviewBonus(a) >= PreviewBonus(b) && PreviewBonus(0) == 6
  {
  }

  lemma DivMonotone(a: int, b: int, n: int)
    requires 0 <= a <= b && n > 0
    ensures 0 <= a / n <= b / n
  {
    assert (b / n - a / n) * n == b - a - (b % n - a % n);
    AboveMinusOne(b / n - a / n, n);
  }

  lemma AboveMinusOne(x: int, n: int)
    requires n > 0 && x * n > -n
    ensures x >= 0
  {
  }

  predicate HasBytes(f: FileEntry) { !f.vfile && f.size != 0 }

  predicate Counts(f: FileEntry, i: int) { HasBytes(f) && f.Covers(i) }

  /** p is the largest contribution to piece i among the given files, zero if there is none. */
  ghost predicate IsTopPriority(files: seq<FileEntry>, i: int, p: int) {
    && p >= 0
    && (forall f :: f in files && Counts(f, i) ==> Contribution(f, i) <= p)
    && (p > 0 ==> exists f :: f in files && Counts(f, i) && Contribution(f, i) == p)
  }

  lemma TopPriorityGrows(files: seq<FileEntry>, f: FileEntry, i: int, p: int)
    requires IsTopPriority(files, i, p) && !f.vfile && f.size != 0
    ensures IsTopPriority(files + [f], i, if f.Covers(i) then Max(Contribution(f, i), p) else p)
  {
    hide Contribution;
    assert f in files + [f];
    assert forall g :: g in files + [f] ==> g in files || g == f;
    assert forall g :: g in files ==> g in files + [f];
  }

  /** The priority depends on which files there are, not on their order in the list. */
  lemma TopPriorityIgnoresOrder(files: seq<FileEntry>, other: seq<FileEntry>, i: int, p: int, q: int)
    requires forall f :: f in files <==> f in other
    requires IsTopPriority(files, i, p) && IsTopPriority(other, i, q)
    ensures p == q
  {
    if p > 0 {
      var f :| f in files && Counts(f, i) && Contribution(f, i) == p;
      assert Contribution(f, i) <= q;
    }
    if q > 0 {
      var f :| f in other && Counts(f, i) && Contribution(f, i) == q;
      assert Contribution(f, i) <= p;
    }
  }

  lemma TopPriorityPositive(l: Layout, i: int, p: int)
    requires IsTopPriority(l.files, i, p)
    ensures p >= 0 && (p > 0 <==> l.Wanted(i))
  {
    if l.Wanted(i) {
      var f :| f in l.files && !f.vfile && f.size != 0 && f.priority % 256 != 0 && f.Covers(i);
      assert Counts(f, i) && Contribution(f, i) > 0;
    }
  }

  /** User priorities are 0 to 5, so with the preview bonus no piece exceeds 11. */
  lemma TopPriorityBounded(l: Layout, i: int, p: int)
    requires forall f :: f in l.files ==> f.priority % 256 <= 5
    requires IsTopPriority(l.files, i, p)
    ensures 0 <= p <= 11
  {
  }

  /** The bytes piece i has on disk. */
  ghost function PieceBytes(l: Layout, disk: Disk, i: int): (data: seq<byte>)
    requires l.Valid() && DiskFits(l, disk) && l.HasPiece(i)
    ensures |data| == l.PieceLength(i) && Stored(l, disk, i, data)
  {
    PieceFits(l, i);
    seq(l.PieceLength(i), k requires 0 <= k < l.PieceLength(i) => ByteAt(l, disk, l.Start(i) + k))
  }

  ghost predicate PieceReadable(l: Layout, i: int)
    requires l.Valid()
  {
    forall g :: l.InPiece(i, g) ==> ReadableAt(l, g)
  }

  ghost predicate HashesMatch(content: map<int, seq<byte>>, trusted: set<int>, sha1: seq<byte> -> int,
                              pieceHash: seq<int>) {
    forall i :: i in content && i !in trusted ==> 0 <= i < |pieceHash| && sha1(content[i]) == pieceHash[i]
  }

  /** Adding a piece keeps all hashes right exactly when its own is. */
  lemma HashesMatchExtend(content: map<int, seq<byte>>, trusted: set<int>, sha1: seq<byte> -> int, pieceHash: seq<int>,
                          i: int, data: seq<byte>)
    requires HashesMatch(content, trusted, sha1, pieceHash) && i !in content && 0 <= i < |pieceHash|
    ensures HashesMatch(content[i := data], trusted - {i}, sha1, pieceHash) <==> sha1(data) == pieceHash[i]
  {
    var after := content[i := data];
    assert i in after && after[i] == data;
  }

  /** Files of the same sizes in which some bytes have become 0x0A. */
  ghost predicate OnlyPoked(before: Disk, after: Disk) {
    |after| == |before| && forall k :: 0 <= k < |after| ==> FilePoked(before[k], after[k])
  }

  ghost predicate FilePoked(before: seq<byte>, after: seq<byte>) {
    |after| == |before| && forall p :: 0 <= p < |after| ==> after[p] == before[p] || after[p] == 0x0A
  }

  /** Copy bytes into a buffer at a position. */
  method CopyInto(buf: array<byte>, at: nat, bytes: seq<byte>)
    requires at + |bytes| <= buf.Length
    modifies buf
    ensures buf[..at + |bytes|] == old(buf[..at]) + bytes
  {
    forall j | 0 <= j < |bytes| { buf[at + j] := bytes[j]; }
  }

  class Storage {
    const layout: Layout
    const pieceHash: seq<int>
    const sha1: seq<byte> -> int

    var disk: Disk
    var finished: set<int>
    var priority: seq<int>
    var writeCache: map<int, seq<byte>>
    var edgeCache: map<int, seq<byte>>
    var readBuffer: seq<BufferBlock>
    var lastWrite: seq<int>
    var cacheSize: nat
    var wasteBytes: nat
    var taskFinished: bool

    ghost var content: map<int, seq<byte>>  // what each finished piece consists of
    ghost var trusted: set<int>             // pieces the saved bitset vouched for

    ghost function Snapshot(): Store
      reads this`disk, this`finished, this`writeCache, this`edgeCache, this`readBuffer, this`lastWrite
    {
      Store(disk, finished, writeCache, edgeCache, readBuffer, lastWrite)
    }

    ghost predicate Configured()
      reads this`priority
    {
      && layout.Valid()
      && |pieceHash| == layout.pieceCount
      && |priority| == layout.pieceCount
      && forall i :: layout.HasPiece(i) ==> IsTopPriority(layout.files, i, priority[i])
    }

    /** Every finished piece has the torrent's hash, unless a saved bitset vouched for it. */
    ghost predicate Verified()
      reads this`finished, this`content, this`trusted
    {
      content.Keys == finished && HashesMatch(content, trusted, sha1, pieceHash)
    }

    ghost predicate Valid()
      reads this`disk, this`finished, this`writeCache, this`edgeCache, this`readBuffer, this`lastWrite
      reads this`priority, this`content, this`trusted
    {
      && Configured()
      && Inv(layout, Snapshot(), content)
      && Verified()
    }

    /** What the methods need from the configuration. */
    lemma ConfiguredFacts()
      requires Configured()
      ensures layout.Valid() && layout.pieceLength > 0 && layout.Tiled()
      ensures |pieceHash| == layout.pieceCount && |priority| == layout.pieceCount
      ensures forall i :: layout.HasPiece(i) ==> priority[i] >= 0 && (priority[i] > 0 <==> layout.Wanted(i))
    {
      forall i | layout.HasPiece(i) ensures priority[i] >= 0 && (priority[i] > 0 <==> layout.Wanted(i)) {
        TopPriorityPositive(layout, i, priority[i]);
      }
    }

    constructor (layout: Layout, disk: Disk, pieceHash: seq<int>, sha1: seq<byte> -> int, cacheSize: nat)
      requires layout.Valid() && DiskFits(layout, disk) && |pieceHash| == layout.pieceCount
      ensures Valid()
      ensures this.layout == layout && this.disk == disk && this.pieceHash == pieceHash && this.sha1 == sha1
      ensures this.cacheSize == cacheSize && wasteBytes == 0 && !taskFinished
      ensures finished == {} && writeCache == map[] && edgeCache == map[] && readBuffer == []
    {
      hide Inv;
      hide IsTopPriority;
      hide Layout.Valid;
      this.layout := layout;
      this.pieceHash := pieceHash;
      this.sha1 := sha1;
      this.disk := disk;
      this.cacheSize := cacheSize;
      finished, writeCache, edgeCache, readBuffer := {}, map[], map[], [];
      lastWrite := Heads(layout);
      wasteBytes, taskFinished := 0, false;
      content, trusted := map[], {};
      priority := [];
      new;
      GenPriorityBitSet();
      EmptyStateInv(layout, disk);
    }

    // ------------------------------------------------------------- priorities

    /** Each piece gets the highest priority any file that covers it asks for. */
    method GenPriorityBitSet()
      requires layout.Valid()
      modifies this`priority
      ensures |priority| == layout.pieceCount
      ensures forall i :: layout.HasPiece(i) ==> IsTopPriority(layout.files, i, priority[i])
    {
      priority := seq(layout.pieceCount, i => 0);
      var files := layout.files;
      for k := 0 to |files|
        invariant |priority| == layout.pieceCount
        invariant forall i :: layout.HasPiece(i) ==> IsTopPriority(files[..k], i, priority[i])
      {
        var f := files[k];
        assert files[..k + 1] == files[..k] + [f];
        if f.vfile || f.size == 0 {
          continue;
        }
        ghost var before := priority;
        RaisePriorities(f);
        forall j | layout.HasPiece(j) ensures IsTopPriority(files[..k + 1], j, priority[j]) {
          TopPriorityGrows(files[..k], f, j, before[j]);
        }
      }
      assert files[..|files|] == files;
    }

    /** Pieces in the range of one file get at least what it asks for. */
    method RaisePriorities(f: FileEntry)
      modifies this`priority
      ensures |priority| == |old(priority)|
      ensures forall j :: 0 <= j < |priority| ==>
                priority[j] == if f.Covers(j) then Max(Contribution(f, j), old(priority)[j]) else old(priority)[j]
    {
      var base, range := f.priority % 256, f.tail - f.head;
      var preview := f.priority / PREVIEW_FLAG % 2 == 1;
      var i := f.head;
      while i < f.tail
        invariant f.head <= i && |priority| == |old(priority)|
        invariant forall j :: 0 <= j < |priority| ==>
                    priority[j] == if f.head <= j < i && f.Covers(j) then Max(Contribution(f, j), old(priority)[j])
                                   else old(priority)[j]
      {
        if 0 <= i < |priority| {
          var p := base;
          if preview && base != 0 {
            p := base + 6;
            if range >= 20 {
              var span := 20 * (i - f.head) / range;
              var rid := 1;
              if span == 0 {
                rid := 6;
              } else if span >= 1 && span <= 2 {
                rid := 5;
              } else if span >= 3 && span <= 5 {
                rid := 4;
              } else if span >= 6 && span <= 9 {
                rid := 3;
              } else if span >= 10 && span <= 14 {
                rid := 2;
              }
              p := base + rid;
            }
          }
          priority := priority[i := Max(p, priority[i])];
        }
        i := i + 1;
      }
    }

    /** The download is finished when every wanted piece is. */
    method CheckIsTaskFinished()
      modifies this`taskFinished
      ensures taskFinished <==> Unfinished(priority, finished) == {}
    {
      for i := 0 to |priority|
        invariant forall j :: 0 <= j < i ==> j !in Unfinished(priority, finished)
      {
        if priority[i] != 0 && i !in finished {
          assert i in Unfinished(priority, finished);
          taskFinished := false;
          return;
        }
      }
      taskFinished := true;
    }

    method GetLeftPieceCount() returns (left: nat)
      ensures left == |Unfinished(priority, finished)|
    {
      var done;
      done, left := CountPieces(priority, finished);
    }

    /** The share of wanted pieces that are finished: 1 exactly when none is left. */
    method CalculateFinishedPercent() returns (percent: real)
      ensures 0.0 <= percent <= 1.0
      ensures percent == 1.0 <==> Unfinished(priority, finished) == {}
      ensures
        var wanted, left := |Selected(priority)|, |Unfinished(priority, finished)|;
        percent * wanted as real == (wanted - left) as real
    {
      var done, open := CountPieces(priority, finished);
      if done + open == 0 {
        percent := 1.0;
      } else {
        percent := done as real / (done + open) as real;
        Ratio(done, open);
      }
    }

    // --------------------------------------------------------------- disk layer

    method GetFileInfoByOffset(offset: int) returns (found: bool, k: nat)
      ensures k == layout.FileAt(offset)
      ensures found <==> k < |layout.files|
    {
      k := 0;
      while k < |layout.files|
        invariant k <= |layout.files|
        invariant layout.Find(offset, 0) == layout.Find(offset, k)
      {
        if layout.files[k].offset <= offset && layout.files[k].offset + layout.files[k].size > offset {
          return true, k;
        }
        k := k + 1;
      }
      found := false;
    }

    /**
      Lay a piece over the files it spans. Unselected, unopened and virtual files
      are skipped; no byte outside the piece changes.
    */
    method WritePieceToDisk(index: int, data: seq<byte>) returns (code: int)
      requires layout.Valid() && DiskFits(layout, disk) && layout.HasPiece(index)
      modifies this`disk
      ensures DiskFits(layout, disk)
      ensures code == if |data| == layout.PieceLength(index) then 0 else -1
      ensures code != 0 ==> disk == old(disk)
      ensures code == 0 ==> Wrote(layout, old(disk), disk, layout.Start(index), data)
    {
      if layout.PieceLength(index) != |data| {
        return -1;
      }
      PieceFits(layout, index);
      WriteRange(layout.Start(index), data);
      code := 0;
    }

    /** The write loop of one piece: [datahead, datahead + |data|), file by file. */
    method WriteRange(datahead: nat, data: seq<byte>)
      requires layout.Tiled() && DiskFits(layout, disk) && datahead + |data| <= layout.Total()
      modifies this`disk
      ensures DiskFits(layout, disk) && Wrote(layout, old(disk), disk, datahead, data)
    {
      hide Cell;
      hide WritableAt;
      hide WroteUpTo;
      hide Wrote;
      var datarear := datahead + |data|;
      var writepos := datahead;
      WroteNothing(layout, disk, datahead, data);
      while writepos < datarear
        invariant datahead <= writepos && DiskFits(layout, disk)
        invariant WroteUpTo(layout, old(disk), disk, datahead, data, writepos)
        decreases datarear - writepos
      {
        FileAtExists(layout, writepos);
        var found, k := GetFileInfoByOffset(writepos);
        var f := layout.files[k];
        if f.priority == 0 || !f.open || f.vfile {
          SkipStep(layout, old(disk), disk, datahead, data, writepos, k);
          writepos := f.offset + f.size;
          continue;
        }
        var fileoffset := writepos - f.offset;
        var dataoffset := writepos - datahead;
        var nbytes := if f.size - fileoffset > datarear - writepos then datarear - writepos else f.size - fileoffset;
        CopyStep(layout, old(disk), disk, datahead, data, writepos, k, nbytes);
        var part := data[dataoffset..dataoffset + nbytes];
        disk := disk[k := disk[k][..fileoffset] + part + disk[k][fileoffset + nbytes..]];
        writepos := writepos + nbytes;
      }
      WroteAll(layout, old(disk), disk, datahead, data, writepos);
    }

    /**
      Gather bytes across files. It succeeds exactly when every byte asked for is
      in a file that is open or virtual, and yields exactly the stored bytes.
    */
    method ReadDataFromDisk(index: int, offset: nat, len: nat) returns (ok: bool, data: seq<byte>)
      requires layout.Valid() && DiskFits(layout, disk) && layout.HasPiece(index)
      ensures ok <==> RangeReadable(layout, layout.Start(index) + offset, len)
      ensures ok ==> |data| == len && Reads(layout, disk, layout.Start(index) + offset, data)
    {
      PieceFits(layout, index);
      ok, data := ReadRange(layout.Start(index) + offset, len);
    }

    /** The read loop: [datahead, datahead + len), file by file, into one buffer. */
    method ReadRange(datahead: nat, len: nat) returns (ok: bool, data: seq<byte>)
      requires layout.Tiled() && DiskFits(layout, disk)
      ensures ok <==> RangeReadable(layout, datahead, len)
      ensures ok ==> |data| == len && Reads(layout, disk, datahead, data)
    {
      hide RangeReadable;
      hide Reads;
      NothingRead(layout, disk, datahead);
      var buf := new byte[len];
      var datarear := datahead + len;
      var readpos := datahead;
      while readpos < datarear
        invariant datahead <= readpos <= datarear
        invariant RangeReadable(layout, datahead, readpos - datahead)
        invariant Reads(layout, disk, datahead, buf[..readpos - datahead])
      {
        var found, k := GetFileInfoByOffset(readpos);
        if !found {
          NotAllReadable(layout, datahead, len, readpos);
          return false, [];
        }
        var f := layout.files[k];
        var fileoffset := readpos - f.offset;
        var nbytes := if f.size - fileoffset > datarear - readpos then datarear - readpos else f.size - fileoffset;
        var dataoffset := readpos - datahead;
        ghost var done := buf[..dataoffset];
        if !f.open && !f.vfile {
          NotAllReadable(layout, datahead, len, readpos);
          return false, [];
        }
        // padding reads as zeros
        var more := if f.open then disk[k][fileoffset..fileoffset + nbytes] else seq(nbytes, _ => 0);
        CopyInto(buf, dataoffset, more);
        GatherStep(layout, disk, datahead, done, more, k);
        readpos := readpos + nbytes;
      }
      ok, data := true, buf[..];
      assert buf[..] == buf[..readpos - datahead];
    }

    // ----------------------------------------------------------------- start-up

    /** The pieces that can be read in full and whose bytes have their hash. */
    ghost function Hashed(): set<int>
      requires layout.Valid() && DiskFits(layout, disk) && |pieceHash| == layout.pieceCount
      reads this`disk
    {
      set i | 0 <= i < layout.pieceCount && PieceReadable(layout, i) &&
              sha1(PieceBytes(layout, disk, i)) == pieceHash[i]
    }

    /** Rehash every piece that can be read in full; the others keep their mark. */
    method CheckOldFiles()
      requires layout.Valid() && DiskFits(layout, disk) && |pieceHash| == layout.pieceCount
      requires finished == {}
      modifies this`finished
      ensures finished == Hashed()
    {
      hide PieceReadable;
      hide Layout.Valid;
      for i := 0 to layout.pieceCount
        invariant finished == set j | 0 <= j < i && PieceReadable(layout, j) &&
                                      sha1(PieceBytes(layout, disk, j)) == pieceHash[j]
      {
        PieceFits(layout, i);
        var ok, piecedata := ReadDataFromDisk(i, 0, layout.PieceLength(i));
        ReadIsPieceBytes(layout, disk, i, ok, piecedata);
        if !ok {
          continue;
        }
        if sha1(piecedata) == pieceHash[i] {
          finished := finished + {i};
        } else {
          finished := finished - {i};
        }
      }
    }

    /** Each file's mark starts at its last finished piece, or at its head. */
    method InitFileProgress()
      requires layout.Valid()
      modifies this`lastWrite
      ensures |lastWrite| == |layout.files|
      ensures forall k :: 0 <= k < |layout.files| ==> StartsAt(layout.files[k], finished, lastWrite[k])
    {
      hide StartsAt;
      HeadsBeforeTails(layout);
      lastWrite := [];
      for k := 0 to |layout.files|
        invariant |lastWrite| == k
        invariant forall j :: 0 <= j < k ==> StartsAt(layout.files[j], finished, lastWrite[j])
      {
        var f := layout.files[k];
        assert f in layout.files;
        EmptyCoversOnlyHead(f.offset, layout.pieceLength);
        var mark := LastFinished(f);
        lastWrite := lastWrite + [mark];
      }
    }

    method LastFinished(f: FileEntry) returns (mark: int)
      requires f.head <= f.tail && (f.size == 0 ==> f.tail <= f.head + 1)
      ensures StartsAt(f, finished, mark)
    {
      mark := f.head;
      if !f.vfile && f.size != 0 {
        var i := f.head;
        while i < f.tail
          invariant f.head <= i <= f.tail && f.head <= mark <= i
          invariant forall j :: j in finished && f.head <= j < i ==> j <= mark
          invariant mark == f.head || (mark in finished && f.Covers(mark))
        {
          if i in finished {
            mark := i;
          }
          i := i + 1;
        }
      }
    }

    /**
      Take over what is on disk: by a saved bitset, which is trusted, or by
      hashing. From here on `content` records what each finished piece consists of.
    */
    method JobInit(saved: Option<set<int>>)
      requires Valid() && finished == {} && writeCache == map[] && edgeCache == map[] && readBuffer == []
      modifies this
      ensures Valid()
      ensures disk == old(disk) && priority == old(priority)
      ensures forall i :: i in finished ==> layout.HasPiece(i) && content[i] == PieceBytes(layout, disk, i)
      ensures layout.Valid() && DiskFits(layout, disk) && |pieceHash| == layout.pieceCount
      ensures saved.None? ==> trusted == {} && finished == Hashed()
      ensures taskFinished <==> Unfinished(priority, finished) == {}
      ensures saved.Some? ==> finished == trusted == set i | i in saved.value && 0 <= i < layout.pieceCount
    {
      hide Inv;
      hide IsTopPriority;
      InvFacts(layout, Snapshot(), content);
      if saved.None? {
        trusted := {};
        CheckOldFiles();
      } else {
        finished := set i | i in saved.value && 0 <= i < layout.pieceCount;
        trusted := finished;
      }
      AdoptFinished();
    }

    /** Record what the finished pieces consist of and where each file stands. */
    method AdoptFinished()
      requires Configured() && Shapes(layout, Snapshot())
      requires writeCache == map[] && edgeCache == map[] && readBuffer == []
      requires forall i :: i in finished && i !in trusted ==> sha1(PieceBytes(layout, disk, i)) == pieceHash[i]
      modifies this`content, this`lastWrite, this`taskFinished
      ensures Valid()
      ensures forall i :: i in finished ==> layout.HasPiece(i) && content[i] == PieceBytes(layout, disk, i)
      ensures taskFinished <==> Unfinished(priority, finished) == {}
    {
      hide Inv;
      hide IsTopPriority;
      content := map i | i in finished :: PieceBytes(layout, disk, i);
      InitFileProgress();
      StartKeepsInv(layout, Snapshot(), content);
      CheckIsTaskFinished();
    }

    // ---------------------------------------------------------------- accepting

    /** What a caller has to have checked: the piece's length and the torrent's hash. */
    ghost predicate Fits(index: int, data: seq<byte>)
      requires layout.Valid() && layout.HasPiece(index) && |pieceHash| == layout.pieceCount
    {
      |data| == layout.PieceLength(index) && sha1(data) == pieceHash[index]
    }

    /**
      A piece enters the store unless it is finished already or not wanted. Neither its
      length nor its hash is looked at: all layers stay in agreement, with verified
      content, exactly when both are right.
    */
    method WritePiece(index: int, data: seq<byte>)
      requires Valid() && layout.HasPiece(index)
      modifies this
      ensures disk == old(disk) && readBuffer == old(readBuffer) && priority == old(priority) && Configured()
      ensures layout.Valid() && |pieceHash| == layout.pieceCount
      ensures index in old(finished) || !layout.Wanted(index) ==>
                && Valid() && Snapshot() == old(Snapshot()) && content == old(content)
                && wasteBytes == old(wasteBytes) + |data|
      ensures index !in old(finished) && layout.Wanted(index) ==>
                && Snapshot() == Accept(old(Snapshot()), layout.IsEdge(index), index, data)
                && content == old(content)[index := data]
                && (Valid() <==> Fits(index, data))
                && (taskFinished <==> Unfinished(priority, finished) == {})
                && (Agreed(index) <==> Agrees(old(readBuffer), index, data))
                && forall i :: i != index ==> Agreed(i) == old(Agreed(i))
    {
      hide Inv;
      hide Storage.Configured;
      hide Layout.Valid;
      hide Layout.Wanted;
      hide HashesMatch;
      hide Layout.IsEdge;
      hide Agrees;
      ConfiguredFacts();
      if index in finished {
        wasteBytes := wasteBytes + |data|;
        return;
      }
      if priority[index] == 0 {
        wasteBytes := wasteBytes + |data|;
        return;
      }
      StorePiece(index, data);
    }

    /** The accepting half of `WritePiece`. */
    method StorePiece(index: int, data: seq<byte>)
      requires Valid() && layout.HasPiece(index) && index !in finished && layout.Wanted(index)
      modifies this`finished, this`writeCache, this`edgeCache, this`content, this`trusted, this`taskFinished
      ensures layout.Valid() && |pieceHash| == layout.pieceCount && Configured()
      ensures Snapshot() == Accept(old(Snapshot()), layout.IsEdge(index), index, data)
      ensures content == old(content)[index := data]
      ensures Valid() <==> Fits(index, data)
      ensures taskFinished <==> Unfinished(priority, finished) == {}
    {
      hide Inv;
      hide Storage.Configured;
      hide Layout.Valid;
      hide Layout.Wanted;
      hide HashesMatch;
      hide Layout.IsEdge;
      ConfiguredFacts();
      trusted := trusted - {index};
      HashesMatchExtend(content, old(trusted), sha1, pieceHash, index, data);
      if |data| == layout.PieceLength(index) {
        AcceptKeepsInv(layout, Snapshot(), content, index, data);
      }
      finished := finished + {index};
      writeCache := writeCache[index := data];
      var edge := IsEdgePiece(index);
      if edge {
        edgeCache := edgeCache[index := data];
      }
      content := content[index := data];
      assert Snapshot() == Accept(old(Snapshot()), layout.IsEdge(index), index, data);
      WrongLengthBreaks(index);
      CheckIsTaskFinished();
    }

    /** Content of another length is in agreement with nothing. */
    lemma WrongLengthBreaks(index: int)
      requires layout.Valid() && layout.HasPiece(index) && index in content
      ensures |content[index]| != layout.PieceLength(index) ==> !Inv(layout, Snapshot(), content)
    {
    }

    method IsEdgePiece(index: int) returns (edge: bool)
      ensures edge == layout.IsEdge(index)
    {
      for k := 0 to |layout.files|
        invariant forall j :: 0 <= j < k ==> layout.files[j].head != index
      {
        if layout.files[k].head == index {
          return true;
        }
      }
      edge := false;
    }

    // --------------------------------------------------------------- write-back

    /** Only the first real file that covers the piece has its mark moved. */
    method RecordLastWriteInFile(index: int)
      requires |lastWrite| == |layout.files|
      modifies this`lastWrite
      ensures lastWrite == RecordMark(layout, old(lastWrite), index)
    {
      for k := 0 to |layout.files|
        invariant lastWrite == old(lastWrite)
        invariant FirstReal(layout, index, 0) == FirstReal(layout, index, k)
      {
        var f := layout.files[k];
        if f.vfile {
          continue;
        }
        if f.head <= index && index < f.tail {
          if lastWrite[k] < index {
            lastWrite := lastWrite[k := index];
          }
          return;
        }
      }
    }

    /** How far past its file's mark a piece lies, in bytes; zero when it is not past it. */
    method PieceDistanceFromLastWrite(index: int) returns (distance: int)
      requires |lastWrite| == |layout.files|
      ensures distance == Distance(layout, lastWrite, index)
    {
      for k := 0 to |layout.files|
        invariant FirstFilled(layout, index, 0) == FirstFilled(layout, index, k)
      {
        var f := layout.files[k];
        if f.vfile || f.size == 0 {
          continue;
        }
        if f.head <= index && index < f.tail {
          if index - lastWrite[k] - 1 <= 0 {
            return 0;
          }
          return (index - lastWrite[k] - 1) * layout.pieceLength;
        }
      }
      distance := 0;
    }

    lemma ValidFacts()
      requires Valid()
      ensures layout.pieceLength > 0 && |lastWrite| == |layout.files| && |priority| == layout.pieceCount
      ensures |disk| == |layout.files|
      ensures forall i :: i in writeCache.Keys ==> 0 <= i < layout.pieceCount
    {
    }

    /** Move one piece from the write cache to disk. */
    method FlushPiece(index: int) returns (code: int)
      requires Valid() && index in writeCache
      modifies this`disk, this`lastWrite, this`writeCache
      ensures Valid() && code == 0
      ensures layout.Valid() && Shapes(layout, old(Snapshot())) && Flushed(layout, old(Snapshot()), Snapshot(), index)
    {
      hide Inv;
      hide Storage.Configured;
      hide Layout.Valid;
      hide HashesMatch;
      ConfiguredFacts();
      InvFacts(layout, Snapshot(), content);
      ghost var before := Snapshot();
      code := WritePieceToDisk(index, writeCache[index]);
      RecordLastWriteInFile(index);
      writeCache := writeCache - {index};
      FlushKeepsInv(layout, before, Snapshot(), content, index);
    }

    /**
      Write-back. Pieces close to a file's mark go first, then whatever exceeds the
      cache budget, then files are grown a step at a time. The clock is read after each
      piece of the first part and each file of the last, and before the last (`late`).
      Nothing that is finished changes its bytes.
    */
    method SmartWriteCache(late: bool) returns (wrote: int)
      requires Valid()
      modifies this`disk, this`lastWrite, this`writeCache
      ensures Valid()
      ensures wrote >= 0 && |writeCache| + wrote == |old(writeCache)|
      ensures |old(lastWrite)| == |layout.files| && layout.pieceLength > 0
      // the near pieces, all of them or up to one that was written, then the lowest of the rest, then the growing
      ensures exists stop: nat, grown: nat, mid: Disk ::
                && stop <= layout.pieceCount
                && var near := Near(layout, old(lastWrite), old(writeCache).Keys, stop);
                   var rest := old(writeCache) - near.flushed;
                   var marks := MarksAfter(layout, near.marks, rest.Keys - writeCache.Keys, layout.pieceCount);
                   && (stop == layout.pieceCount || |rest| < |old(writeCache)|)
                   && Trimmed(rest, writeCache, CacheBudget(layout))
                   && GrownUpTo(layout, marks, mid, lastWrite, disk, grown)
                   && if late then grown == 0 else grown == |layout.files| || SomePoked(layout, marks, grown)
      ensures (exists i :: i in old(writeCache) && Distance(layout, old(lastWrite), i) <= NEAR) ==> wrote > 0
    {
      hide Storage.Valid;
      hide Near;
      hide MarksAfter;
      hide Distance;
      hide Trimmed;
      hide GrownUpTo;
      hide SomePoked;
      ValidFacts();
      ghost var cached, marks := writeCache, lastWrite;
      var near, stop := FlushNear();
      ghost var rest := writeCache;
      if stop == layout.pieceCount && exists i :: i in cached && Distance(layout, marks, i) <= NEAR {
        ghost var i :| i in cached && Distance(layout, marks, i) <= NEAR;
        NearWritten(layout, marks, cached.Keys, i, stop);
      }
      var excess := FlushExcess();
      wrote := near + excess;
      ValidFacts();
      ghost var mid := disk;
      GrownNothing(layout, lastWrite, disk);
      var grown := 0;
      if !late {
        grown := GrowFiles();
      }
      assert Trimmed(rest, writeCache, CacheBudget(layout)) && GrownUpTo(layout,
               MarksAfter(layout, Near(layout, marks, cached.Keys, stop).marks, rest.Keys - writeCache.Keys,
                          layout.pieceCount),
               mid, lastWrite, disk, grown);
    }

    /**
      Flush, in piece order, what lies within 4 MiB of its file's mark, the marks
      moving as pieces are written. A clock reading may stop the walk before piece `stop`.
    */
    method FlushNear() returns (wrote: nat, stop: nat)
      requires Valid()
      modifies this`disk, this`lastWrite, this`writeCache
      ensures Valid() && writeCache.Keys <= old(writeCache.Keys) && |writeCache| + wrote == |old(writeCache)|
      ensures stop <= layout.pieceCount && |old(lastWrite)| == |layout.files| && layout.pieceLength > 0
      ensures var near := Near(layout, old(lastWrite), old(writeCache).Keys, stop);
              writeCache == old(writeCache) - near.flushed && lastWrite == near.marks
      ensures wrote == |Near(layout, old(lastWrite), old(writeCache).Keys, stop).flushed|
      ensures stop == layout.pieceCount || wrote > 0
    {
      hide Storage.Valid;
      hide Distance;
      hide RecordMark;
      hide Near;
      hide NearDone;
      ValidFacts();
      wrote, stop := 0, 0;
      ghost var marks, cached := lastWrite, writeCache;
      NearStart(layout, marks, cached);
      while stop < layout.pieceCount
        invariant Valid() && stop <= layout.pieceCount
        invariant NearDone(layout, marks, cached, stop, writeCache, lastWrite, wrote)
        decreases layout.pieceCount - stop
      {
        ghost var left, at := writeCache, lastWrite;
        var done := FlushIfNear(stop);
        NearStep(layout, marks, cached, stop, left, at, wrote, done);
        stop := stop + 1;
        if done {
          wrote := wrote + 1;
          var late: bool := *;
          if late {
            break;
          }
        }
      }
      NearSum(layout, marks, cached, stop, writeCache, lastWrite, wrote);
    }

    method FlushIfNear(index: int) returns (done: bool)
      requires Valid() && layout.HasPiece(index)
      modifies this`disk, this`lastWrite, this`writeCache
      ensures Valid() && |old(lastWrite)| == |layout.files|
      ensures done <==> index in old(writeCache) && Distance(layout, old(lastWrite), index) <= NEAR
      ensures writeCache == if done then old(writeCache) - {index} else old(writeCache)
      ensures lastWrite == if done then RecordMark(layout, old(lastWrite), index) else old(lastWrite)
    {
      hide Storage.Valid;
      hide Distance;
      ValidFacts();
      if index !in writeCache {
        return false;
      }
      var distance := PieceDistanceFromLastWrite(index);
      if distance > 4 * 1024 * 1024 {
        return false;
      }
      var code := FlushPiece(index);
      return true;
    }

    /** When the cache has reached its budget, flush from the front until it is below it. */
    method FlushExcess() returns (wrote: nat)
      requires Valid()
      modifies this`disk, this`lastWrite, this`writeCache
      ensures Valid() && writeCache.Keys <= old(writeCache.Keys) && |writeCache| + wrote == |old(writeCache)|
      ensures layout.pieceLength > 0 && Trimmed(old(writeCache), writeCache, CacheBudget(layout))
      ensures |old(lastWrite)| == |layout.files|
      ensures lastWrite ==
              MarksAfter(layout, old(lastWrite), old(writeCache).Keys - writeCache.Keys, layout.pieceCount)
    {
      hide Storage.Valid;
      ValidFacts();
      wrote := 0;
      var maxsize := 15 * 1024 * 1024 / layout.pieceLength;
      hide CutTo;
      hide MarksAfter;
      hide Trimmed;
      hide CacheBudget;
      BudgetFacts(layout);
      ghost var was, marks := writeCache, lastWrite;
      CutToStart(layout, marks, was);
      if maxsize > |writeCache| {
        CutToNothing(layout, marks, was, maxsize, layout.pieceCount);
        return;
      }
      var nwrite := |writeCache| - maxsize;
      var index := 0;
      while nwrite >= 0 && index < layout.pieceCount
        invariant Valid() && 0 <= index <= layout.pieceCount
        invariant nwrite == |writeCache| - maxsize >= -1 && |writeCache| + wrote == |was|
        invariant CutTo(layout, marks, was, writeCache, lastWrite, index)
      {
        CutToStep(layout, marks, was, writeCache, lastWrite, index);
        if index in writeCache {
          var code := FlushPiece(index);
          wrote := wrote + 1;
          nwrite := nwrite - 1;
        }
        index := index + 1;
      }
      ValidFacts();
      CutToEnd(layout, marks, was, writeCache, lastWrite, index, maxsize);
    }

    /**
      Poke one byte per large file, a step past its mark, so the file system extends it
      early. A clock reading after a poke may leave out the files from `stop` on.
    */
    method GrowFiles() returns (stop: nat)
      requires Valid()
      modifies this`disk, this`lastWrite
      ensures Valid()
      ensures OnlyPoked(old(disk), disk)
      ensures |lastWrite| == |old(lastWrite)|
      ensures forall k :: 0 <= k < |lastWrite| ==> old(lastWrite)[k] <= lastWrite[k]
      ensures |old(lastWrite)| == |old(disk)| == |layout.files| && layout.pieceLength > 0
      ensures GrownUpTo(layout, old(lastWrite), old(disk), lastWrite, disk, stop)
      ensures stop <= |layout.files|
      ensures stop < |layout.files| ==> SomePoked(layout, old(lastWrite), stop)
    {
      hide Storage.Valid;
      hide Pokes;
      hide GrownMark;
      hide GrownFile;
      ValidFacts();
      var piecestep := 4 * 1024 * 1024 / layout.pieceLength;
      if piecestep == 0 {
        piecestep := 1;
      }
      stop := 0;
      while stop < |layout.files|
        invariant Valid() && stop <= |layout.files|
        invariant OnlyPoked(old(disk), disk)
        invariant |lastWrite| == |old(lastWrite)| == |layout.files| == |old(disk)|
        invariant forall j :: 0 <= j < |lastWrite| ==> old(lastWrite)[j] <= lastWrite[j]
        invariant GrownUpTo(layout, old(lastWrite), old(disk), lastWrite, disk, stop)
      {
        var k := stop;
        var f := layout.files[k];
        stop := stop + 1;
        if f.vfile || !f.open || f.size <= 4 * 1024 * 10240 {
          continue;
        }
        var poked := GrowFile(k, piecestep);
        var late: bool := *;
        if poked && late {
          break;
        }
      }
    }

    method GrowFile(k: nat, piecestep: nat) returns (poked: bool)
      requires Valid() && Real(layout, k) && layout.files[k].open
      requires piecestep == GrowStep(layout.pieceLength)
      modifies this`disk, this`lastWrite
      ensures Valid()
      ensures OnlyPoked(old(disk), disk) && (!poked ==> disk == old(disk))
      ensures |lastWrite| == |old(lastWrite)| == |layout.files|
      ensures old(lastWrite)[k] <= lastWrite[k]
      ensures poked <==> Pokes(layout, old(lastWrite)[k], layout.files[k])
      ensures lastWrite == old(lastWrite)[k := GrownMark(layout, old(lastWrite)[k], layout.files[k])]
      ensures |old(disk)| == |layout.files|
      ensures poked ==> 0 <= PokedAt(layout, old(lastWrite)[k], layout.files[k]) < |old(disk)[k]|
      ensures disk == old(disk)[k := GrownFile(layout, old(lastWrite)[k], layout.files[k], old(disk)[k])]
    {
      hide Inv;
      hide Storage.Configured;
      hide Layout.Valid;
      hide HashesMatch;
      ConfiguredFacts();
      InvFacts(layout, Snapshot(), content);
      var f := layout.files[k];
      ghost var before := Snapshot();
      var piecepos := lastWrite[k] + piecestep;
      if piecepos >= f.tail {
        lastWrite := lastWrite[k := f.tail];
        GrowToTail(layout, before, content, k);
        return false;
      }
      var goffset := piecepos * layout.pieceLength;
      if goffset >= f.offset + f.size {
        return false;
      }
      GrowInsideFile(layout, k, lastWrite[k]);
      goffset := goffset - 1;
      var foffset := goffset - f.offset;
      if f.priority != 0 {  // a skipped file was opened for reading only, so the write fails unnoticed
        UpdateIsSplice(disk[k], foffset);
        disk := disk[k := disk[k][..foffset] + [0x0A] + disk[k][foffset + 1..]];
      }
      lastWrite := lastWrite[k := lastWrite[k] + piecestep];
      GrowPoke(layout, before, Snapshot(), content, k, foffset);
      poked := true;
    }

    // ------------------------------------------------------------------ reading

    /** The first block that covers the request serves it and moves to the back of the buffer. */
    method SearchReadBuffer(index: int, offset: nat, len: nat) returns (hit: bool, data: seq<byte>)
      requires Valid()
      modifies this`readBuffer
      ensures Valid()
      ensures hit <==> exists b :: b in old(readBuffer) && b.Serves(index, offset, len)
      ensures hit == Hit(old(readBuffer), index, offset, len)
      ensures hit ==> data == Answer(old(readBuffer), index, offset, len) && len <= BUFFER_BLOCK_SIZE
      ensures readBuffer == Searched(old(readBuffer), index, offset, len)
    {
      hide Inv;
      hide Storage.Configured;
      hide HashesMatch;
      hide FirstServing;
      HitIff(readBuffer, index, offset, len);
      SearchKeepsInv(layout, Snapshot(), content, index, offset, len);
      for n := 0 to |readBuffer|
        invariant readBuffer == old(readBuffer)
        invariant forall m :: 0 <= m < n ==> !readBuffer[m].Serves(index, offset, len)
      {
        var b := readBuffer[n];
        if b.pIndex == index {
          if b.offset <= offset && b.offset + |b.data| >= offset + len {
            FirstServingUnique(readBuffer, index, offset, len, n);
            readBuffer := readBuffer[..n] + readBuffer[n + 1..] + [b];
            data := b.data[offset - b.offset..offset - b.offset + len];
            return true, data;
          }
        }
      }
      hit, data := false, [];
    }

    /** Look in the read buffer, then the edge cache, then the write cache. */
    method ReadDataFromCache(index: int, offset: nat, len: nat) returns (hit: bool, data: seq<byte>)
      requires Valid() && layout.HasPiece(index) && offset <= layout.PieceLength(index)
      modifies this`readBuffer
      ensures Valid() && readBuffer == Searched(old(readBuffer), index, offset, len)
      ensures hit <==> Hit(old(readBuffer), index, offset, len) || index in edgeCache || index in writeCache
      ensures Hit(old(readBuffer), index, offset, len) ==>
                data == Answer(old(readBuffer), index, offset, len) && len <= BUFFER_BLOCK_SIZE
      ensures hit && !Hit(old(readBuffer), index, offset, len) ==> Serves(index, offset, len, data)
      ensures !hit ==> readBuffer == old(readBuffer)
    {
      hide Inv;
      hide Storage.Configured;
      hide Layout.Valid;
      hide Layout.IsEdge;
      hide HashesMatch;
      hide Shapes;
      hit, data := SearchReadBuffer(index, offset, len);
      if hit {
        return;
      }
      ConfiguredFacts();
      InvFacts(layout, Snapshot(), content);
      ReadFacts(index);
      var edge := IsEdgePiece(index);
      if edge && index in edgeCache {
        return true, Slice(edgeCache[index], offset, len);
      }
      if index !in writeCache {
        return false, [];
      }
      return true, Slice(writeCache[index], offset, len);
    }

    /** No buffered block disagrees with what this finished piece consists of. */
    ghost predicate Agreed(index: int)
      reads this`readBuffer, this`content
    {
      index in content ==> Agrees(readBuffer, index, content[index])
    }

    /**
      Serve part of a piece. For a finished piece with which no buffered block
      disagrees the bytes are the ones accepted (or on disk at the start), whichever
      layer they come from. A disk read is cut at two buffer blocks, which then are
      the newest in the buffer.
    */
    method ReadData(index: int, offset: nat, len: nat) returns (ok: bool, data: seq<byte>)
      requires Valid() && layout.HasPiece(index) && offset <= layout.PieceLength(index)
      modifies this`readBuffer
      ensures Valid()
      ensures ok <==> old(InMemory(index, offset, len)) ||
                      RangeReadable(layout, layout.Start(index) + offset, PartLength(layout, index, offset))
      ensures ok && index in finished && old(Agreed(index)) && layout.pieceLength <= GROW_SAFE_LENGTH ==>
        var served := if index in edgeCache || index in writeCache then len else Min(len, 256 * 1024);
        Serves(index, offset, served, data)
      ensures layout.Valid() && DiskFits(layout, disk)
      ensures Hit(old(readBuffer), index, offset, len) ==> data == Answer(old(readBuffer), index, offset, len)
      ensures old(InMemory(index, offset, len)) || !ok ==> readBuffer == Searched(old(readBuffer), index, offset, len)
      ensures ok && !old(InMemory(index, offset, len)) ==>
        var read := DiskPart(layout, disk, index, offset);
        && data == read[..Min(len, |read|)]
        && readBuffer == Newest(old(readBuffer) + BlocksOf(index, offset, read), cacheSize / BUFFER_BLOCK_SIZE)
      ensures forall i :: old(Agreed(i)) && (i != index || layout.pieceLength <= GROW_SAFE_LENGTH) ==> Agreed(i)
    {
      hide Storage.Valid;
      hide Storage.Serves;
      hide RangeReadable;
      hide Agrees;
      hide DiskPart;
      hide BlocksOf;
      hide Searched;
      hide Answer;
      hide Hit;
      ReadFacts(index);
      var hit;
      hit, data := ReadDataFromCache(index, offset, len);
      SearchKeepsAgreed(old(readBuffer), index, offset, len);
      if !hit {
        ok, data := ReadMissing(index, offset, len);
        return;
      }
      if Hit(old(readBuffer), index, offset, len) && index in finished && old(Agreed(index)) {
        AgreedAnswerServes(old(readBuffer), index, offset, len);
      }
      return true, data;
    }

    /** The second half of a read: none of the memory layers has answered. */
    method ReadMissing(index: int, offset: nat, len: nat) returns (ok: bool, data: seq<byte>)
      requires Valid() && layout.HasPiece(index) && offset <= layout.PieceLength(index)
      requires index !in edgeCache && index !in writeCache
      modifies this`readBuffer
      ensures Valid()
      ensures ok <==> RangeReadable(layout, layout.Start(index) + offset, PartLength(layout, index, offset))
      ensures !ok ==> readBuffer == old(readBuffer)
      ensures ok && index in finished && layout.pieceLength <= GROW_SAFE_LENGTH ==>
                Serves(index, offset, Min(len, 2 * BUFFER_BLOCK_SIZE), data)
      ensures layout.Valid() && DiskFits(layout, disk)
      ensures ok ==>
        var read := DiskPart(layout, disk, index, offset);
        && data == read[..Min(len, |read|)]
        && readBuffer == Newest(old(readBuffer) + BlocksOf(index, offset, read), cacheSize / BUFFER_BLOCK_SIZE)
      ensures forall i :: old(Agreed(i)) && i != index ==> Agreed(i)
      ensures index in finished && layout.pieceLength <= GROW_SAFE_LENGTH && old(Agreed(index)) ==> Agreed(index)
    {
      hide Storage.Valid;
      hide Storage.Serves;
      hide RangeReadable;
      hide Reads;
      hide Agrees;
      hide DiskPart;
      hide BlocksOf;
      ReadFacts(index);
      var piecelen := layout.PieceLength(index);
      var readlen := Min(2 * BUFFER_BLOCK_SIZE, piecelen - offset);
      var diskdata;
      ok, diskdata := ReadDataFromDisk(index, offset, readlen);
      if !ok {
        return false, [];
      }
      ReadIsPart(layout, disk, index, offset, diskdata);
      data := diskdata[..Min(len, |diskdata|)];
      if index in finished && layout.pieceLength <= GROW_SAFE_LENGTH {
        FinishedPartMatches(index, offset, diskdata);
        CutServes(index, offset, len, diskdata);
      }
      BufferBlocks(index, offset, diskdata);
    }

    /** One of the three memory layers answers. */
    ghost predicate InMemory(index: int, offset: nat, len: nat)
      reads this`readBuffer, this`edgeCache, this`writeCache
    {
      Hit(readBuffer, index, offset, len) || index in edgeCache || index in writeCache
    }

    lemma ShapeFacts()
      requires Valid()
      ensures layout.Valid() && Shapes(layout, Snapshot())
    {
    }

    lemma ReadFacts(index: int)
      requires Valid() && layout.HasPiece(index)
      ensures layout.Valid() && layout.pieceLength > 0 && DiskFits(layout, disk) && layout.Start(index) >= 0
      ensures index in finished ==> index in content && |content[index]| == layout.PieceLength(index)
      ensures content.Keys == finished && (index in edgeCache ==> layout.IsEdge(index))
      ensures index in edgeCache || index in writeCache ==> index in finished
    {
      PieceFits(layout, index);
    }

    /** A search changes no agreement. */
    lemma SearchKeepsAgreed(before: Buffer, index: int, offset: nat, len: nat)
      requires readBuffer == Searched(before, index, offset, len)
      ensures forall i :: i in content ==> (Agrees(before, i, content[i]) <==> Agrees(readBuffer, i, content[i]))
    {
      SearchedSameBlocks(before, index, offset, len);
    }

    lemma AgreedAnswerServes(before: Buffer, index: int, offset: nat, len: nat)
      requires index in content && Agrees(before, index, content[index]) && Hit(before, index, offset, len)
      requires offset <= |content[index]|
      ensures Serves(index, offset, len, Answer(before, index, offset, len))
    {
      MatchingBlockAnswers(before, index, content[index], offset, len);
    }

    /** What the disk yields for a finished piece that is in no cache is part of its content. */
    lemma FinishedPartMatches(index: int, offset: nat, diskdata: seq<byte>)
      requires Valid() && layout.HasPiece(index) && layout.Start(index) >= 0
      requires index in finished && layout.pieceLength <= GROW_SAFE_LENGTH && index !in edgeCache
      requires index !in writeCache
      requires offset + |diskdata| <= layout.PieceLength(index)
      requires Reads(layout, disk, layout.Start(index) + offset, diskdata)
      ensures Matches(index, offset, diskdata)
    {
      hide Inv;
      hide Storage.Configured;
      hide Layout.Valid;
      hide HashesMatch;
      hide Reads;
      ConfiguredFacts();
      InvFacts(layout, Snapshot(), content);
      DiskReadMatches(layout, Snapshot(), content, index, offset, diskdata);
    }

    /** Cut to what was asked for it serves the request. */
    lemma CutServes(index: int, offset: nat, len: nat, diskdata: seq<byte>)
      requires Matches(index, offset, diskdata)
      requires offset + |diskdata| == Min(offset + 2 * BUFFER_BLOCK_SIZE, |content[index]|)
      ensures Serves(index, offset, Min(len, 2 * BUFFER_BLOCK_SIZE), diskdata[..Min(len, |diskdata|)])
    {
      var n := Min(len, |diskdata|);
      SliceOfSlice(content[index], offset, diskdata, offset, n);
      assert diskdata[..n] == diskdata[0..n];
    }

    /** data is what there is of [offset, offset + len) in a finished piece. */
    ghost predicate Serves(index: int, offset: nat, len: nat, data: seq<byte>)
      reads this`content
    {
      index in content && offset <= |content[index]| && data == Slice(content[index], offset, len)
    }

    lemma ServesHead(index: int, len: nat, data: seq<byte>)
      requires index in content && len <= |content[index]|
      ensures Serves(index, 0, len, data) <==> data == content[index][..len]
    {
    }

    /** data is the part of a finished piece that starts at offset. */
    ghost predicate Matches(index: int, offset: nat, data: seq<byte>)
      reads this`content
    {
      index in content && offset + |data| <= |content[index]| && data == content[index][offset..offset + |data|]
    }

    /** Cut what was read into blocks at the back of the buffer, then drop from the front. */
    method BufferBlocks(index: int, offset: nat, diskdata: seq<byte>)
      requires Valid() && layout.HasPiece(index) && offset + |diskdata| <= layout.PieceLength(index)
      modifies this`readBuffer
      ensures Valid()
      ensures readBuffer == Newest(old(readBuffer) + BlocksOf(index, offset, diskdata), cacheSize / BUFFER_BLOCK_SIZE)
      ensures |readBuffer| <= cacheSize / BUFFER_BLOCK_SIZE
      ensures forall i :: old(Agreed(i)) && (i != index || Matches(index, offset, diskdata)) ==> Agreed(i)
    {
      hide Inv;
      hide Storage.Configured;
      hide Layout.Valid;
      hide HashesMatch;
      hide Agrees;
      BufferingKeepsInv(layout, Snapshot(), content, index, offset, diskdata, cacheSize / BUFFER_BLOCK_SIZE);
      forall i | i in content && Agrees(readBuffer, i, content[i]) && (i != index || Matches(index, offset, diskdata))
        ensures Agrees(Newest(readBuffer + BlocksOf(index, offset, diskdata), cacheSize / BUFFER_BLOCK_SIZE),
                i, content[i])
      {
        BufferingAgrees(readBuffer, index, offset, diskdata, cacheSize / BUFFER_BLOCK_SIZE, i, content[i]);
      }
      AppendBlocks(index, offset, diskdata);
    }

    /** The two loops: blocks to the back, then the front dropped until the buffer has its size. */
    method AppendBlocks(index: int, offset: nat, diskdata: seq<byte>)
      modifies this`readBuffer
      ensures readBuffer == Newest(old(readBuffer) + BlocksOf(index, offset, diskdata), cacheSize / BUFFER_BLOCK_SIZE)
    {
      hide BlocksOf;
      ghost var all := readBuffer + BlocksOf(index, offset, diskdata);
      var rest := diskdata;
      var at: nat := offset;
      while rest != []
        invariant readBuffer + BlocksOf(index, at, rest) == all
        decreases |rest|
      {
        BlocksOfStep(readBuffer, index, at, rest);
        var n := Min(BUFFER_BLOCK_SIZE, |rest|);
        readBuffer := readBuffer + [BufferBlock(index, at, rest[..n])];
        rest := rest[n..];
        at := at + n;
      }
      NoBlocks(index, at);
      while cacheSize / BUFFER_BLOCK_SIZE < |readBuffer|
        invariant |readBuffer| <= |all| && readBuffer == all[|all| - |readBuffer|..]
        invariant |readBuffer| == |all| || cacheSize / BUFFER_BLOCK_SIZE <= |readBuffer|
      {
        readBuffer := readBuffer[1..];
      }
    }
  }

  /** How much of a piece one read takes from disk. */
  function PartLength(l: Layout, i: int, offset: nat): nat
    requires l.Valid() && l.HasPiece(i) && offset <= l.PieceLength(i)
  {
    Min(2 * BUFFER_BLOCK_SIZE, l.PieceLength(i) - offset)
  }

  ghost function DiskPart(l: Layout, disk: Disk, i: int, offset: nat): seq<byte>
    requires l.Valid() && DiskFits(l, disk) && l.HasPiece(i) && offset <= l.PieceLength(i)
  {
    PieceBytes(l, disk, i)[offset..offset + PartLength(l, i, offset)]
  }

  lemma ReadIsPart(l: Layout, disk: Disk, i: int, offset: nat, data: seq<byte>)
    requires l.Valid() && DiskFits(l, disk) && l.HasPiece(i) && l.Start(i) >= 0 && offset <= l.PieceLength(i)
    requires |data| == PartLength(l, i, offset) && Reads(l, disk, l.Start(i) + offset, data)
    ensures data == DiskPart(l, disk, i, offset)
  {
    var part := DiskPart(l, disk, i, offset);
    forall k | 0 <= k < |data| ensures data[k] == part[k] {
      assert part[k] == PieceBytes(l, disk, i)[offset + k];
    }
  }

  lemma UpdateIsSplice(file: seq<byte>, at: int)
    requires 0 <= at < |file|
    ensures file[at := 0x0A] == file[..at] + [0x0A] + file[at + 1..]
  {
  }

  lemma MarkReaches(l: Layout, marks: seq<int>, i: int, k: nat)
    requires |marks| == |l.files| && k == FirstReal(l, i, 0) < |l.files| && marks[k] <= i
    ensures |RecordMark(l, marks, i)| == |marks| && RecordMark(l, marks, i)[k] == i && Real(l, k)
  {
  }

  /** Files up to this size are never grown. */
  const GROW_MIN_SIZE: nat := 4 * 1024 * 10240

  /**
    A run that destroys data: an inner piece of more than 2 MiB is written back,
    which puts its file's mark on it, and the next growing step of the file overwrites
    its last byte. No memory layer holds the piece any more.
  */
  method FlushThenGrow(store: Storage, index: int, k: nat)
    requires store.Valid() && index in store.writeCache && index in store.content && !store.layout.IsEdge(index)
    requires store.layout.pieceLength > GROW_SAFE_LENGTH && |store.content[index]| == store.layout.pieceLength
    requires store.content[index][store.layout.pieceLength - 1] != 0x0A
    requires k == FirstReal(store.layout, index, 0) < |store.layout.files|
    requires k < |store.lastWrite| && store.lastWrite[k] <= index
    requires
      var f := store.layout.files[k];
      f.Writable() && f.size > GROW_MIN_SIZE && index + 1 < f.tail && (index + 1) * store.layout.pieceLength < f.End()
    modifies store
    ensures store.Valid() && store.content == old(store.content)
    ensures index !in store.edgeCache && index !in store.writeCache
    ensures store.layout.Valid() && DiskFits(store.layout, store.disk) && store.layout.HasPiece(index)
    ensures |store.content[index]| == store.layout.PieceLength(index)
    ensures !Stored(store.layout, store.disk, index, store.content[index])
  {
    hide Storage.Valid;
    hide Layout.Valid;
    hide Stored;
    hide Wrote;
    hide Layout.IsEdge;
    hide RecordMark;
    store.ShapeFacts();
    store.ValidFacts();
    store.ReadFacts(index);
    MarkReaches(store.layout, store.lastWrite, index, k);
    var code := store.FlushPiece(index);
    GrowStepAtLeastTwo(store.layout.pieceLength);
    ghost var before := store.Snapshot();
    store.ShapeFacts();
    var poked := store.GrowFile(k, 1);
    store.ReadFacts(index);
    ghost var at := (index + 1) * store.layout.pieceLength - 1 - store.layout.files[k].offset;
    UpdateIsSplice(before.disk[k], at);
    GrowBreaksLargePiece(store.layout, before, k, index, store.content[index], store.disk);
  }

  /** How much of its first block a piece has. */
  function HeadLength(l: Layout, i: int): nat
    requires l.Valid() && l.HasPiece(i)
  {
    Min(BUFFER_BLOCK_SIZE, l.PieceLength(i))
  }

  /**
    A run that goes wrong: a piece is read from disk before it is finished, then it
    is accepted, then its first block is read again. The second read yields the old
    bytes of the disk: it serves the piece exactly when they are those accepted.
  */
  method ReadWriteRead(store: Storage, index: int, data: seq<byte>) returns (first: seq<byte>, second: seq<byte>)
    requires store.Valid() && store.layout.HasPiece(index) && index !in store.finished && store.layout.Wanted(index)
    requires |data| == store.layout.PieceLength(index) && store.sha1(data) == store.pieceHash[index]
    requires PieceReadable(store.layout, index) && DiskFits(store.layout, store.disk)
    requires store.cacheSize / BUFFER_BLOCK_SIZE >= 2 && forall b :: b in store.readBuffer ==> b.pIndex != index
    modifies store
    ensures store.Valid() && index in store.finished && store.content[index] == data
    ensures first == second == old(PieceBytes(store.layout, store.disk, index))[..HeadLength(store.layout, index)]
    ensures store.Serves(index, 0, HeadLength(store.layout, index), second) <==>
              first == data[..HeadLength(store.layout, index)]
  {
    hide Storage.Valid;
    hide Storage.Serves;
    hide Storage.Agreed;
    hide BlocksOf;
    hide Newest;
    hide Hit;
    hide Searched;
    hide Answer;
    hide Layout.Wanted;
    hide PieceReadable;
    store.ReadFacts(index);
    var len := HeadLength(store.layout, index);
    HitIff(store.readBuffer, index, 0, len);
    PartReadable(store.layout, index, 0, PartLength(store.layout, index, 0));
    ghost var read := DiskPart(store.layout, store.disk, index, 0);
    HeadBlockAnswers(store.readBuffer, index, read, store.cacheSize / BUFFER_BLOCK_SIZE);
    var ok;
    ok, first := store.ReadData(index, 0, len);
    store.WritePiece(index, data);
    ok, second := store.ReadData(index, 0, len);
    store.ServesHead(index, len, second);
  }

  /** std::string::substr: what there is of [offset, offset + len). */
  function Slice(data: seq<byte>, offset: nat, len: nat): seq<byte>
    requires offset <= |data|
  {
    data[offset..Min(offset + len, |data|)]
  }

  /** A readable piece has every part readable. */
  lemma PartReadable(l: Layout, i: int, offset: nat, len: nat)
    requires l.Valid() && l.HasPiece(i) && offset + len <= l.PieceLength(i)
    ensures PieceReadable(l, i) ==> RangeReadable(l, l.Start(i) + offset, len)
  {
  }

  lemma SliceOfSlice(whole: seq<byte>, at: nat, part: seq<byte>, offset: nat, len: nat)
    requires at <= offset && offset + len <= at + |part| <= |whole| && part == whole[at..at + |part|]
    ensures part[offset - at..offset - at + len] == whole[offset..offset + len]
  {
    var l, r := part[offset - at..offset - at + len], whole[offset..offset + len];
    forall k | 0 <= k < len ensures l[k] == r[k] {
    }
  }

  /** A disk read falls short of the request exactly when more than two blocks of it exist. */
  lemma ReadCutIff(data: seq<byte>, offset: nat, len: nat)
    requires offset <= |data|
    ensures Slice(data, offset, Min(len, 2 * BUFFER_BLOCK_SIZE)) == Slice(data, offset, len) <==>
              Min(len, |data| - offset) <= 256 * 1024
  {
    var cut, whole := Slice(data, offset, Min(len, 2 * BUFFER_BLOCK_SIZE)), Slice(data, offset, len);
    assert |cut| == Min(Min(len, 2 * BUFFER_BLOCK_SIZE), |data| - offset);
    assert |whole| == Min(len, |data| - offset);
  }

  lemma EmptyCoversOnlyHead(offset: nat, p: nat)
    requires p > 0
    ensures TailIndex(offset, p) <= HeadIndex(offset, p) + 1
  {
  }

  lemma ReadIsPieceBytes(l: Layout, disk: Disk, i: int, ok: bool, data: seq<byte>)
    requires l.Valid() && DiskFits(l, disk) && l.HasPiece(i) && l.Start(i) >= 0
    requires ok <==> RangeReadable(l, l.Start(i) + 0, l.PieceLength(i))
    requires ok ==> |data| == l.PieceLength(i) && Reads(l, disk, l.Start(i) + 0, data)
    ensures ok <==> PieceReadable(l, i)
    ensures ok ==> data == PieceBytes(l, disk, i)
  {
  }

  /** Any part of an on-disk piece that can be read from disk is as it was accepted. */
  lemma DiskReadMatches(l: Layout, s: Store, content: map<int, seq<byte>>, i: int, offset: nat, data: seq<byte>)
    requires Inv(l, s, content) && l.pieceLength <= GROW_SAFE_LENGTH
    requires OnDisk(s, i) && i !in s.edgeCache && l.HasPiece(i) && l.Start(i) >= 0
    requires offset + |data| <= l.PieceLength(i) && Reads(l, s.disk, l.Start(i) + offset, data)
    ensures data == content[i][offset..offset + |data|]
  {
    assert Stored(l, s.disk, i, content[i]);
    forall k | 0 <= k < |data| ensures data[k] == content[i][offset + k] {
      assert l.InPiece(i, l.Start(i) + offset + k);
    }
  }

  lemma GrowToTail(l: Layout, s: Store, content: map<int, seq<byte>>, k: nat)
    requires Inv(l, s, content) && Real(l, k) && |s.lastWrite| == |l.files|
    ensures Inv(l, s.(lastWrite := s.lastWrite[k := l.files[k].tail]), content)
  {
    GrowKeepsInv(l, s, s.(lastWrite := s.lastWrite[k := l.files[k].tail]), content, k, None);
  }

  lemma GrowPoke(l: Layout, s: Store, s': Store, content: map<int, seq<byte>>, k: nat, foffset: nat)
    requires Inv(l, s, content) && Real(l, k) && Shapes(l, s)
    requires var target := s.lastWrite[k] + GrowStep(l.pieceLength);
             && target < l.files[k].tail
             && l.files[k].offset + foffset == target * l.pieceLength - 1
             && foffset < l.files[k].size
             && s'.lastWrite == s.lastWrite[k := target]
    requires s'.disk == s.disk ||
             s'.disk == s.disk[k := s.disk[k][..foffset] + [0x0A] + s.disk[k][foffset + 1..]]
    requires s' == s.(disk := s'.disk, lastWrite := s'.lastWrite)
    ensures Inv(l, s', content)
  {
    WriteInFile(l, s.disk, k, foffset, [0x0A]);
    GrowKeepsInv(l, s, s', content, k, Some(l.files[k].offset + foffset));
  }

  /** A step that does not leave the file pokes a byte inside it. */
  lemma GrowInsideFile(l: Layout, k: nat, mark: int)
    requires l.Valid() && k < |l.files| && l.files[k].head <= mark
    requires (mark + GrowStep(l.pieceLength)) * l.pieceLength < l.files[k].End()
    ensures l.files[k].Contains((mark + GrowStep(l.pieceLength)) * l.pieceLength - 1)
  {
    var f := l.files[k];
    assert f in l.files;
    DivBounds(f.offset, l.pieceLength);
    MulOrder(f.head, mark + GrowStep(l.pieceLength), l.pieceLength);
  }

  /** The mark of a file at the start: its last finished piece; its head if none is, or if it has no bytes. */
  ghost predicate StartsAt(f: FileEntry, finished: set<int>, mark: int) {
    && f.head <= mark <= f.tail
    && (mark != f.head ==> HasBytes(f) && mark in finished && f.Covers(mark))
    && (!f.vfile ==> forall i :: i in finished && f.Covers(i) ==> i <= mark)
  }

  predicate Growable(f: FileEntry) { !f.vfile && f.open && f.size > GROW_MIN_SIZE }

  /** The step from this mark stays inside the file. */
  predicate Pokes(l: Layout, mark: int, f: FileEntry)
    requires l.pieceLength > 0
  {
    var target := mark + GrowStep(l.pieceLength);
    target < f.tail && target * l.pieceLength < f.End()
  }

  function PokedAt(l: Layout, mark: int, f: FileEntry): int
    requires l.pieceLength > 0
  {
    (mark + GrowStep(l.pieceLength)) * l.pieceLength - 1 - f.offset
  }

  function GrownMark(l: Layout, mark: int, f: FileEntry): int
    requires l.pieceLength > 0
  {
    var target := mark + GrowStep(l.pieceLength);
    if target >= f.tail then f.tail else if Pokes(l, mark, f) then target else mark
  }

  /** The byte in front of the target piece becomes 0x0A, except in a skipped file, which is open for reading only. */
  function GrownFile(l: Layout, mark: int, f: FileEntry, bytes: seq<byte>): seq<byte>
    requires l.pieceLength > 0
  {
    var at := PokedAt(l, mark, f);
    if Pokes(l, mark, f) && f.priority != 0 && 0 <= at < |bytes| then bytes[at := 0x0A] else bytes
  }

  /** The first n files have been grown where they are large enough, the others are as they were. */
  ghost predicate GrownUpTo(l: Layout, marks: seq<int>, disk: Disk, marks': seq<int>, disk': Disk, n: nat)
    requires l.pieceLength > 0
  {
    && |marks'| == |marks| == |disk'| == |disk| == |l.files|
    && forall k :: 0 <= k < |l.files| ==>
         if k < n && Growable(l.files[k])
         then marks'[k] == GrownMark(l, marks[k], l.files[k]) && disk'[k] == GrownFile(l, marks[k], l.files[k], disk[k])
         else marks'[k] == marks[k] && disk'[k] == disk[k]
  }

  ghost predicate SomePoked(l: Layout, marks: seq<int>, n: nat)
    requires l.pieceLength > 0
  {
    && |marks| == |l.files|
    && exists k :: 0 <= k < n && k < |l.files| && Growable(l.files[k]) && Pokes(l, marks[k], l.files[k])
  }

  lemma GrownNothing(l: Layout, marks: seq<int>, disk: Disk)
    requires l.pieceLength > 0 && |marks| == |disk| == |l.files|
    ensures GrownUpTo(l, marks, disk, marks, disk, 0)
  {
  }

  /** Pieces this close to their file's mark are written back at once. */
  const NEAR: int := 4 * 1024 * 1024

  /** Bytes between a file's mark and a piece past it. */
  function Distance(l: Layout, marks: seq<int>, i: int): int
    requires |marks| == |l.files|
  {
    var k := FirstFilled(l, i, 0);
    if k == |l.files| then 0 else Max(0, i - marks[k] - 1) * l.pieceLength
  }

  datatype NearState = NearState(marks: seq<int>, flushed: set<int>)

  /** The marks, and the pieces written back, after the near ones among the first n have been. */
  ghost function Near(l: Layout, marks: seq<int>, cached: set<int>, n: nat): (s: NearState)
    requires |marks| == |l.files|
    ensures |s.marks| == |l.files|
  {
    if n == 0 then NearState(marks, {}) else
      var s := Near(l, marks, cached, n - 1);
      if n - 1 in cached && Distance(l, s.marks, n - 1) <= NEAR
      then NearState(RecordMark(l, s.marks, n - 1), s.flushed + {n - 1}) else s
  }

  /** The marks after these pieces below n have been written back, in their order. */
  ghost function MarksAfter(l: Layout, marks: seq<int>, flushed: set<int>, n: nat): (m: seq<int>)
    requires |marks| == |l.files|
    ensures |m| == |l.files|
  {
    if n == 0 then marks else
      var m := MarksAfter(l, marks, flushed, n - 1);
      if n - 1 in flushed then RecordMark(l, m, n - 1) else m
  }

  lemma {:induction false} MarksIdle(l: Layout, marks: seq<int>, flushed: set<int>, k: nat, n: nat)
    requires |marks| == |l.files| && k <= n && forall i :: i in flushed ==> i < k
    ensures MarksAfter(l, marks, flushed, n) == MarksAfter(l, marks, flushed, k)
  {
    hide RecordMark;
    if k < n {
      MarksIdle(l, marks, flushed, k, n - 1);
    }
  }

  lemma MarksStep(l: Layout, marks: seq<int>, flushed: set<int>, n: nat)
    requires |marks| == |l.files| && forall i :: i in flushed ==> i < n
    ensures MarksAfter(l, marks, flushed, n + 1) == MarksAfter(l, marks, flushed, n)
    ensures MarksAfter(l, marks, flushed + {n}, n + 1) == RecordMark(l, MarksAfter(l, marks, flushed, n), n)
  {
    hide RecordMark;
    MarksSame(l, marks, flushed, flushed + {n}, n);
  }

  lemma {:induction false} MarksSame(l: Layout, marks: seq<int>, a: set<int>, b: set<int>, n: nat)
    requires |marks| == |l.files| && forall i :: 0 <= i < n ==> (i in a <==> i in b)
    ensures MarksAfter(l, marks, a, n) == MarksAfter(l, marks, b, n)
  {
    hide RecordMark;
    if n > 0 {
      MarksSame(l, marks, a, b, n - 1);
    }
  }

  /** The walk has come to piece n and done what `Near` says. */
  ghost predicate NearDone(l: Layout, marks: seq<int>, cached: map<int, seq<byte>>, n: nat,
                           cache: map<int, seq<byte>>, at: seq<int>, wrote: nat)
  {
    && |marks| == |l.files|
    && cache == cached - Near(l, marks, cached.Keys, n).flushed && at == Near(l, marks, cached.Keys, n).marks
    && Near(l, marks, cached.Keys, n).flushed <= cached.Keys && |Near(l, marks, cached.Keys, n).flushed| == wrote
  }

  lemma NearStart(l: Layout, marks: seq<int>, cached: map<int, seq<byte>>)
    requires |marks| == |l.files|
    ensures NearDone(l, marks, cached, 0, cached, marks, 0)
  {
  }

  lemma NearStep(l: Layout, marks: seq<int>, cached: map<int, seq<byte>>, n: nat,
                 cache: map<int, seq<byte>>, at: seq<int>, wrote: nat, done: bool)
    requires NearDone(l, marks, cached, n, cache, at, wrote)
    requires |at| == |l.files| && (done <==> n in cache && Distance(l, at, n) <= NEAR)
    ensures NearDone(l, marks, cached, n + 1, if done then cache - {n} else cache,
                     if done then RecordMark(l, at, n) else at, if done then wrote + 1 else wrote)
  {
    hide Distance;
    hide RecordMark;
    NearBelow(l, marks, cached.Keys, n);
    var before, after := Near(l, marks, cached.Keys, n), Near(l, marks, cached.Keys, n + 1);
    assert done ==> after.flushed == before.flushed + {n};
  }

  lemma NearSum(l: Layout, marks: seq<int>, cached: map<int, seq<byte>>, n: nat,
                cache: map<int, seq<byte>>, at: seq<int>, wrote: nat)
    requires NearDone(l, marks, cached, n, cache, at, wrote)
    ensures |marks| == |l.files|
    ensures cache == cached - Near(l, marks, cached.Keys, n).flushed && at == Near(l, marks, cached.Keys, n).marks
    ensures cache.Keys <= cached.Keys && |cache| + wrote == |cached|
    ensures wrote == |Near(l, marks, cached.Keys, n).flushed|
  {
    var flushed := Near(l, marks, cached.Keys, n).flushed;
    assert cache.Keys == cached.Keys - flushed;
  }

  lemma {:induction false} NearBelow(l: Layout, marks: seq<int>, cached: set<int>, n: nat)
    requires |marks| == |l.files|
    ensures forall i :: i in Near(l, marks, cached, n).flushed ==> i in cached && i < n
  {
    if n > 0 {
      NearBelow(l, marks, cached, n - 1);
    }
  }

  /** A piece that is near at the start is not passed by without anything being written. */
  lemma {:induction false} NearWritten(l: Layout, marks: seq<int>, cached: set<int>, i: int, n: nat)
    requires |marks| == |l.files| && i in cached && 0 <= i < n && Distance(l, marks, i) <= NEAR
    ensures Near(l, marks, cached, n).flushed != {}
  {
    hide Distance;
    hide RecordMark;
    if n - 1 > i {
      NearWritten(l, marks, cached, i, n - 1);
    } else {
      NearIdle(l, marks, cached, n - 1);
    }
  }

  lemma {:induction false} NearIdle(l: Layout, marks: seq<int>, cached: set<int>, n: nat)
    requires |marks| == |l.files|
    ensures Near(l, marks, cached, n).flushed == {} ==> Near(l, marks, cached, n).marks == marks
  {
    hide Distance;
    hide RecordMark;
    if n > 0 {
      NearIdle(l, marks, cached, n - 1);
    }
  }

  /** First real, non-empty file whose range covers the piece. */
  function FirstFilled(l: Layout, i: int, from: nat): (k: nat)
    requires from <= |l.files|
    ensures from <= k <= |l.files|
    ensures k < |l.files| ==> Counts(l.files[k], i)
    ensures forall j :: from <= j < k ==> !Counts(l.files[j], i)
    decreases |l.files| - from
  {
    if from == |l.files| then from
    else if Counts(l.files[from], i) then from
    else FirstFilled(l, i, from + 1)
  }

  /** Pieces the write cache may hold before it is flushed regardless of distance. */
  function CacheBudget(l: Layout): nat
    requires l.pieceLength > 0
  {
    15 * 1024 * 1024 / l.pieceLength
  }

  /** A cache that has reached its budget has lost its lowest pieces, until it is one below; others are as they were. */
  ghost predicate Trimmed(was: map<int, seq<byte>>, now: map<int, seq<byte>>, budget: nat) {
    && now == was - (was.Keys - now.Keys)
    && |now| == Min(|was|, Max(0, budget - 1))
    && forall i, j :: i in was.Keys && i !in now.Keys && j in now.Keys ==> i < j
  }

  /** Nothing below `index` is left, and nothing from there on has gone. */
  ghost predicate CutBelow(was: map<int, seq<byte>>, now: map<int, seq<byte>>, index: int) {
    && now == was - (was.Keys - now.Keys)
    && (forall i :: i in now.Keys ==> index <= i)
    && forall i :: i in was.Keys && i !in now.Keys ==> i < index
  }

  lemma CutStep(was: map<int, seq<byte>>, now: map<int, seq<byte>>, index: int)
    requires CutBelow(was, now, index) && index in now
    ensures CutBelow(was, now - {index}, index + 1) && |now - {index}| == |now| - 1
    ensures was.Keys - (now - {index}).Keys == was.Keys - now.Keys + {index}
  {
    var next := now - {index};
    assert next.Keys == now.Keys - {index};
    assert was.Keys - next.Keys == was.Keys - now.Keys + {index};
  }

  /** All of the cache below `index` has been written back, and the marks have moved accordingly. */
  ghost predicate CutTo(l: Layout, marks: seq<int>, was: map<int, seq<byte>>,
                        now: map<int, seq<byte>>, at: seq<int>, index: nat)
  {
    && |marks| == |l.files| && CutBelow(was, now, index)
    && at == MarksAfter(l, marks, was.Keys - now.Keys, index)
  }

  lemma CutToStart(l: Layout, marks: seq<int>, was: map<int, seq<byte>>)
    requires |marks| == |l.files| && forall i :: i in was.Keys ==> 0 <= i
    ensures CutTo(l, marks, was, was, marks, 0)
  {
    assert was.Keys - was.Keys == {};
  }

  lemma CutToNothing(l: Layout, marks: seq<int>, was: map<int, seq<byte>>, budget: nat, n: nat)
    requires |marks| == |l.files| && |was| < budget
    ensures Trimmed(was, was, budget) && marks == MarksAfter(l, marks, was.Keys - was.Keys, n)
  {
    assert was.Keys - was.Keys == {};
    MarksIdle(l, marks, {}, 0, n);
  }

  lemma CutToStep(l: Layout, marks: seq<int>, was: map<int, seq<byte>>,
                  now: map<int, seq<byte>>, at: seq<int>, index: nat)
    requires CutTo(l, marks, was, now, at, index)
    ensures |at| == |l.files|
    ensures index !in now ==> CutTo(l, marks, was, now, at, index + 1)
    ensures index in now ==>
              |now - {index}| == |now| - 1 && CutTo(l, marks, was, now - {index}, RecordMark(l, at, index), index + 1)
  {
    hide RecordMark;
    hide MarksAfter;
    MarksStep(l, marks, was.Keys - now.Keys, index);
    if index in now {
      CutStep(was, now, index);
    }
  }

  lemma CutToEnd(l: Layout, marks: seq<int>, was: map<int, seq<byte>>,
                 now: map<int, seq<byte>>, at: seq<int>, index: nat, budget: nat)
    requires CutTo(l, marks, was, now, at, index) && forall i :: i in now.Keys ==> i < l.pieceCount
    requires budget <= |was| && index <= l.pieceCount && |now| >= budget - 1
    requires |now| < budget || index >= l.pieceCount
    ensures Trimmed(was, now, budget) && at == MarksAfter(l, marks, was.Keys - now.Keys, l.pieceCount)
  {
    hide MarksAfter;
    CutDone(was, now, index, l.pieceCount);
    MarksIdle(l, marks, was.Keys - now.Keys, index, l.pieceCount);
  }

  lemma BudgetFacts(l: Layout)
    requires l.pieceLength > 0
    ensures CacheBudget(l) == 15 * 1024 * 1024 / l.pieceLength
  {
  }

  lemma CutDone(was: map<int, seq<byte>>, now: map<int, seq<byte>>, index: int, n: int)
    requires CutBelow(was, now, index) && forall i :: i in now.Keys ==> i < n
    ensures index >= n ==> now == map[]
    ensures now.Keys <= was.Keys && now == was - (was.Keys - now.Keys)
    ensures forall i, j :: i in was.Keys && i !in now.Keys && j in now.Keys ==> i < j
  {
    if index >= n {
      forall i ensures i !in now.Keys {
      }
      assert now.Keys == {};
    }
  }

  ghost predicate RangeReadable(l: Layout, from: int, len: nat) {
    forall g :: from <= g < from + len ==> ReadableAt(l, g)
  }

  /** data is what the disk holds from position `from` on. */
  ghost predicate Reads(l: Layout, disk: Disk, from: nat, data: seq<byte>)
    requires l.Tiled() && DiskFits(l, disk)
  {
    && from + |data| <= Max(from, l.Total())
    && forall k :: 0 <= k < |data| ==> data[k] == ByteAt(l, disk, from + k)
  }

  lemma NothingRead(l: Layout, disk: Disk, from: nat)
    requires l.Tiled() && DiskFits(l, disk)
    ensures RangeReadable(l, from, 0) && Reads(l, disk, from, [])
  {
  }

  lemma NotAllReadable(l: Layout, from: int, len: nat, g: int)
    requires from <= g < from + len && !ReadableAt(l, g)
    ensures !RangeReadable(l, from, len)
  {
  }

  lemma GatherStep(l: Layout, disk: Disk, from: nat, done: seq<byte>, more: seq<byte>, k: nat)
    requires l.Tiled() && DiskFits(l, disk) && k < |l.files|
    requires RangeReadable(l, from, |done|) && Reads(l, disk, from, done)
    requires var pos := from + |done|; var f := l.files[k];
             && f.Contains(pos) && pos + |more| <= f.End() && f.Readable()
             && more == if f.open then disk[k][pos - f.offset..pos - f.offset + |more|] else seq(|more|, _ => 0)
    ensures RangeReadable(l, from, |done| + |more|) && Reads(l, disk, from, done + more)
  {
    SameFileBetween(l, k, from + |done|);
    FileWithinTotal(l, k);
  }

  function Heads(l: Layout): seq<int> {
    seq(|l.files|, k requires 0 <= k < |l.files| => l.files[k].head)
  }

  lemma EmptyStateInv(l: Layout, disk: Disk)
    requires l.Valid() && DiskFits(l, disk)
    ensures Inv(l, Store(disk, {}, map[], map[], [], Heads(l)), map[])
  {
    HeadsBeforeTails(l);
    StartKeepsInv(l, Store(disk, {}, map[], map[], [], Heads(l)), map[]);
  }

  lemma HeadsBeforeTails(l: Layout)
    requires l.Valid()
    ensures forall k :: 0 <= k < |l.files| ==> l.files[k].head <= l.files[k].tail
  {
    forall k | 0 <= k < |l.files| ensures l.files[k].head <= l.files[k].tail {
      var f := l.files[k];
      assert f in l.files;
      HeadBeforeTail(f.offset, f.End(), l.pieceLength);
    }
  }

  lemma HeadBeforeTail(offset: nat, end: nat, p: nat)
    requires p > 0 && offset <= end
    ensures HeadIndex(offset, p) <= TailIndex(end, p)
  {
    var h := HeadIndex(offset, p);
    TailAfter(end, p, h - 1);
    DivBounds(offset, p);
    assert (h - 1) * p == h * p - p;
  }

  /** From a position to the end of its file, every position is in that file. */
  lemma SameFileBetween(l: Layout, k: nat, pos: int)
    requires l.Tiled() && k < |l.files| && l.files[k].Contains(pos)
    ensures forall g :: pos <= g < l.files[k].End() ==> l.FileAt(g) == k
  {
    forall g | pos <= g < l.files[k].End() ensures l.FileAt(g) == k {
      FileAtUnique(l, g, k);
    }
  }

  /** The part of a piece write that lies before pos has been done, nothing else. */
  ghost predicate WroteUpTo(l: Layout, before: Disk, after: Disk, start: int, data: seq<byte>, pos: int)
    requires l.Tiled() && DiskFits(l, before) && DiskFits(l, after)
  {
    forall g :: 0 <= g < l.Total() ==>
      Cell(l, after, g) == if start <= g < start + |data| && g < pos && WritableAt(l, g)
                           then data[g - start] else Cell(l, before, g)
  }

  lemma WroteNothing(l: Layout, disk: Disk, start: int, data: seq<byte>)
    requires l.Tiled() && DiskFits(l, disk)
    ensures WroteUpTo(l, disk, disk, start, data, start)
  {
  }

  lemma WroteAll(l: Layout, before: Disk, after: Disk, start: int, data: seq<byte>, pos: int)
    requires l.Tiled() && DiskFits(l, before) && DiskFits(l, after)
    requires WroteUpTo(l, before, after, start, data, pos) && pos >= start + |data|
    ensures Wrote(l, before, after, start, data)
  {
  }

  lemma SkipStep(l: Layout, before: Disk, after: Disk, start: int, data: seq<byte>, pos: int, k: nat)
    requires l.Tiled() && DiskFits(l, before) && DiskFits(l, after)
    requires WroteUpTo(l, before, after, start, data, pos)
    requires k < |l.files| && l.files[k].Contains(pos) && !l.files[k].Writable()
    ensures WroteUpTo(l, before, after, start, data, l.files[k].End())
  {
    SameFileBetween(l, k, pos);
  }

  lemma CopyStep(l: Layout, before: Disk, after: Disk, start: int, data: seq<byte>, pos: int, k: nat, n: nat)
    requires l.Tiled() && DiskFits(l, before) && DiskFits(l, after)
    requires WroteUpTo(l, before, after, start, data, pos)
    requires k < |l.files| && l.files[k].Contains(pos) && l.files[k].Writable()
    requires start <= pos && pos + n <= start + |data| && pos + n <= l.files[k].End()
    ensures var from := pos - l.files[k].offset;
            var disk' := after[k := after[k][..from] + data[pos - start..pos - start + n] + after[k][from + n..]];
            DiskFits(l, disk') && WroteUpTo(l, before, disk', start, data, pos + n)
  {
    SameFileBetween(l, k, pos);
    WriteInFile(l, after, k, pos - l.files[k].offset, data[pos - start..pos - start + n]);
  }

  lemma Ratio(done: nat, open: nat)
    requires done + open > 0
    ensures 0.0 <= done as real / (done + open) as real <= 1.0
    ensures done as real / (done + open) as real == 1.0 <==> open == 0
    ensures done as real / (done + open) as real * (done + open) as real == done as real
  {
    var d, t := done as real, (done + open) as real;
    assert d / t * t == d;
  }
}
