/**
  A piece being fetched: its blocks, which of them are asked for, and the data
  that came in, from the peer itself or from peers that left ("aliens").
*/
module SingleRequest {
  import opened Common

  const CHUNK_LEN := 16 * 1024

  datatype Block = Block(offset: nat, length: nat, source: nat, pending: bool, data: seq<byte>)

  /** Data a leaving peer hands over. */
  datatype Orphan = Orphan(index: int, offset: nat, source: nat, data: seq<byte>)

  /** Exact, ordered and without gaps: the blocks cover [0, length) and each covers something. */
  ghost predicate Partition(bs: seq<Block>, length: nat) {
    && (forall i :: 0 <= i < |bs| ==> bs[i].length > 0)
    && (forall i :: 0 <= i < |bs| - 1 ==> bs[i + 1].offset == bs[i].offset + bs[i].length)
    && if bs == [] then length == 0
       else bs[0].offset == 0 && bs[|bs| - 1].offset + bs[|bs| - 1].length == length
  }

  /** Block boundaries of a piece of this length: every sixteen kilobytes, the rest at the end. */
  ghost predicate IsBlock(length: nat, offset: nat, size: nat) {
    offset % CHUNK_LEN == 0 && offset < length && size == Min(CHUNK_LEN, length - offset)
  }

  /** The blocks of a piece of this length, each empty or full. */
  ghost predicate Shaped(bs: seq<Block>, length: nat) {
    && |bs| == (length + CHUNK_LEN - 1) / CHUNK_LEN
    && forall i :: 0 <= i < |bs| ==>
         && bs[i].offset == i * CHUNK_LEN
         && bs[i].length == Min(CHUNK_LEN, length - bs[i].offset)
         && bs[i].length > 0
         && (bs[i].data == [] || |bs[i].data| == bs[i].length)
  }

  lemma ShapedIsPartition(bs: seq<Block>, length: nat)
    requires Shaped(bs, length)
    ensures Partition(bs, length)
  {
  }

  /** A block is found by its offset and size exactly when they are a block boundary of the piece. */
  lemma BlockFound(bs: seq<Block>, length: nat, offset: nat, size: nat)
    requires Shaped(bs, length)
    ensures IsBlock(length, offset, size) ==>
              && offset / CHUNK_LEN < |bs|
              && bs[offset / CHUNK_LEN].offset == offset && bs[offset / CHUNK_LEN].length == size
    ensures forall i :: 0 <= i < |bs| && bs[i].offset == offset && bs[i].length == size ==>
              IsBlock(length, offset, size) && i == offset / CHUNK_LEN
  {
  }

  lemma OffsetFound(bs: seq<Block>, length: nat, offset: nat)
    requires Shaped(bs, length)
    ensures offset % CHUNK_LEN == 0 && offset < length ==>
              offset / CHUNK_LEN < |bs| && bs[offset / CHUNK_LEN].offset == offset
    ensures forall i :: 0 <= i < |bs| && bs[i].offset == offset ==>
              offset % CHUNK_LEN == 0 && offset < length && i == offset / CHUNK_LEN
  {
  }

  // ---------------------------------------------------------------- counting

  function Counted(pending: bool): nat { if pending then 1 else 0 }

  function PendingIn(bs: seq<Block>): nat {
    if bs == [] then 0 else PendingIn(bs[..|bs| - 1]) + (if bs[|bs| - 1].pending then 1 else 0)
  }

  lemma {:induction false} PendingChanges(bs: seq<Block>, i: nat, b: Block)
    requires i < |bs|
    ensures PendingIn(bs[i := b]) == PendingIn(bs) + (if b.pending then 1 else 0) - (if bs[i].pending then 1 else 0)
  {
    var n := |bs| - 1;
    if i < n {
      assert bs[i := b][..n] == bs[..n][i := b];
      PendingChanges(bs[..n], i, b);
    } else {
      assert bs[i := b][..n] == bs[..n];
    }
  }

  lemma {:induction false} NonePending(bs: seq<Block>)
    ensures PendingIn(bs) == 0 <==> forall i :: 0 <= i < |bs| ==> !bs[i].pending
  {
    if bs != [] {
      NonePending(bs[..|bs| - 1]);
    }
  }

  lemma {:induction false} SamePending(a: seq<Block>, b: seq<Block>)
    requires |a| == |b| && forall i :: 0 <= i < |a| ==> a[i].pending == b[i].pending
    ensures PendingIn(a) == PendingIn(b)
  {
    if a != [] {
      SamePending(a[..|a| - 1], b[..|b| - 1]);
    }
  }

  // --------------------------------------------------------------- assembly

  function Assembled(bs: seq<Block>): seq<byte> {
    if bs == [] then [] else Assembled(bs[..|bs| - 1]) + bs[|bs| - 1].data
  }

  ghost predicate Full(bs: seq<Block>) { forall i :: 0 <= i < |bs| ==> bs[i].data != [] }

  /** When nothing is missing every block sits at its own offset. */
  lemma {:induction false} AssembledInPlace(bs: seq<Block>, length: nat)
    requires Partition(bs, length) && forall i :: 0 <= i < |bs| ==> |bs[i].data| == bs[i].length
    ensures |Assembled(bs)| == length
    ensures forall i :: 0 <= i < |bs| ==> InPlace(Assembled(bs), bs[i])
  {
    hide InPlace;
    if bs != [] {
      var n := |bs| - 1;
      AssembledInPlace(bs[..n], bs[n].offset);
      forall i | 0 <= i < |bs| ensures InPlace(Assembled(bs), bs[i]) {
        if i < n {
          assert bs[..n][i] == bs[i];
          StaysInPlace(Assembled(bs[..n]), bs[n].data, bs[i]);
        } else {
          LandsInPlace(Assembled(bs[..n]), bs[n]);
        }
      }
    }
  }

  ghost predicate InPlace(data: seq<byte>, b: Block) {
    b.offset + b.length <= |data| && data[b.offset..b.offset + b.length] == b.data
  }

  lemma StaysInPlace(front: seq<byte>, more: seq<byte>, b: Block)
    requires InPlace(front, b)
    ensures InPlace(front + more, b)
  {
    assert (front + more)[b.offset..b.offset + b.length] == front[b.offset..b.offset + b.length];
  }

  lemma LandsInPlace(front: seq<byte>, b: Block)
    requires |front| == b.offset && |b.data| == b.length
    ensures InPlace(front + b.data, b)
  {
    assert (front + b.data)[b.offset..b.offset + b.length] == b.data;
  }

  lemma {:induction false} AssembledShort(bs: seq<Block>, length: nat)
    requires Partition(bs, length)
    requires forall i :: 0 <= i < |bs| ==> bs[i].data == [] || |bs[i].data| == bs[i].length
    ensures |Assembled(bs)| <= length
    ensures |Assembled(bs)| == length <==> Full(bs)
  {
    if bs != [] {
      var n := |bs| - 1;
      AssembledShort(bs[..n], bs[n].offset);
      assert Full(bs) <==> Full(bs[..n]) && bs[n].data != [];
    }
  }

  /**
    Decomposing a piece without clearing the previous list: the blocks are a
    partition of the piece exactly when the list was empty.
  */
  lemma DecomposeTwiceIff(before: seq<Block>, added: seq<Block>, length: nat)
    requires Partition(added, length)
    requires Solid(before)
    ensures Partition(before + added, length) <==> before == []
  {
    var all, m := before + added, |before|;
    if before == [] {
      assert all == added;
    } else if added == [] {
      assert all[m - 1] == before[m - 1];
    } else {
      assert all[m - 1] == before[m - 1] && all[m] == added[0];
      assert all[m - 1 + 1].offset != all[m - 1].offset + all[m - 1].length;
    }
  }

  /** The first `n` blocks of a fresh decomposition, reaching up to `offset`. */
  ghost predicate Laid(bs: seq<Block>, length: nat, offset: nat) {
    && offset == Min(|bs| * CHUNK_LEN, length)
    && |bs| * CHUNK_LEN < length + CHUNK_LEN
    && forall i :: 0 <= i < |bs| ==>
         i * CHUNK_LEN < length && bs[i] == Block(i * CHUNK_LEN, Min(CHUNK_LEN, length - i * CHUNK_LEN), 0, false, [])
  }

  lemma NothingLaid(length: nat)
    ensures Laid([], length, 0)
  {
  }

  lemma LaidGrows(bs: seq<Block>, length: nat, offset: nat)
    requires Laid(bs, length, offset) && offset < length
    ensures Laid(bs + [Block(offset, Min(CHUNK_LEN, length - offset), 0, false, [])], length,
                 offset + Min(CHUNK_LEN, length - offset))
  {
  }

  ghost predicate Blank(bs: seq<Block>) {
    forall i :: 0 <= i < |bs| ==> bs[i].data == [] && bs[i].source == 0 && !bs[i].pending
  }

  lemma LaidDone(bs: seq<Block>, length: nat)
    requires Laid(bs, length, length)
    ensures Shaped(bs, length) && Partition(bs, length) && Blank(bs) && PendingIn(bs) == 0
  {
    NonePending(bs);
    ShapedIsPartition(bs, length);
  }

  ghost predicate Solid(bs: seq<Block>) { forall k :: 0 <= k < |bs| ==> bs[k].length > 0 }

  // -------------------------------------------------------------- the request

  /** The block at an offset holds what was stored there last. */
  ghost predicate Remembers(bs: seq<Block>, stored: map<nat, seq<byte>>) {
    forall i :: 0 <= i < |bs| ==>
      if bs[i].offset in stored then bs[i].data == stored[bs[i].offset] != [] else bs[i].data == []
  }

  /** Replacing one block by another of the same range keeps the shape. */
  lemma ReplaceKeeps(bs: seq<Block>, length: nat, i: nat, b: Block)
    requires Shaped(bs, length) && i < |bs|
    requires b.offset == bs[i].offset && b.length == bs[i].length && (b.data == [] || |b.data| == b.length)
    ensures Shaped(bs[i := b], length)
    ensures PendingIn(bs[i := b]) == PendingIn(bs) + (if b.pending then 1 else 0) - (if bs[i].pending then 1 else 0)
  {
    PendingChanges(bs, i, b);
  }

  /** Storing data at a block is remembered under its offset. */
  lemma StoreRemembered(bs: seq<Block>, length: nat, stored: map<nat, seq<byte>>, i: nat, b: Block)
    requires Shaped(bs, length) && Remembers(bs, stored) && i < |bs|
    requires b.offset == bs[i].offset && b.length == bs[i].length && |b.data| == b.length
    ensures Remembers(bs[i := b], stored[b.offset := b.data])
  {
  }

  lemma QuietRemembered(bs: seq<Block>, stored: map<nat, seq<byte>>, i: nat, b: Block)
    requires Remembers(bs, stored) && i < |bs| && b.offset == bs[i].offset && b.data == bs[i].data
    ensures Remembers(bs[i := b], stored)
  {
  }

  /** Blocks changed one by one by a function of the block alone. */
  ghost predicate Mapped(now: seq<Block>, was: seq<Block>, f: Block -> Block) {
    |now| == |was| && forall k :: 0 <= k < |was| ==> now[k] == f(was[k])
  }

  /** The first block neither filled nor asked for. */
  ghost predicate FirstFree(bs: seq<Block>, i: nat) {
    && i < |bs| && bs[i].data == [] && !bs[i].pending
    && forall k :: 0 <= k < i ==> bs[k].data != [] || bs[k].pending
  }

  predicate Inside(b: Block, offset: nat, size: nat) { b.offset >= offset && b.offset + b.length <= offset + size }

  function Blanked(b: Block, offset: nat, size: nat): Block {
    if Inside(b, offset, size) then b.(data := Zeros(b.length), source := 0) else b
  }

  function Purged(b: Block, iip: nat): Block {
    if b.source != iip && b.data != [] then b.(data := [], source := 0) else b
  }

  /** What a full or partial block list hands over: its filled blocks, in order. */
  function OrphansOf(bs: seq<Block>, index: int): seq<Orphan> {
    if bs == [] then [] else
      var b := bs[|bs| - 1];
      OrphansOf(bs[..|bs| - 1], index) + (if b.data != [] then [Orphan(index, b.offset, b.source, b.data)] else [])
  }

  /** The offsets of the blocks a change clears or fills. */
  ghost function OffsetsWhere(bs: seq<Block>, p: Block -> bool): set<nat> {
    set i | 0 <= i < |bs| && p(bs[i]) :: bs[i].offset
  }

  lemma OffsetsWhereIff(bs: seq<Block>, length: nat, p: Block -> bool, i: nat)
    requires Shaped(bs, length) && i < |bs|
    ensures bs[i].offset in OffsetsWhere(bs, p) <==> p(bs[i])
  {
    if bs[i].offset in OffsetsWhere(bs, p) {
      var j :| 0 <= j < |bs| && p(bs[j]) && bs[j].offset == bs[i].offset;
      assert j == i;
    }
  }

  ghost function Filled(stored: map<nat, seq<byte>>, at: set<nat>, length: nat): map<nat, seq<byte>> {
    stored + (map o | o in at :: if o < length then Zeros(Min(CHUNK_LEN, length - o)) else [])
  }

  lemma BlankedKeeps(was: seq<Block>, now: seq<Block>, length: nat, stored: map<nat, seq<byte>>, offset: nat, size: nat)
    requires Shaped(was, length) && Remembers(was, stored)
    requires Mapped(now, was, (b: Block) => Blanked(b, offset, size))
    ensures Shaped(now, length) && PendingIn(now) == PendingIn(was)
    ensures Remembers(now, Filled(stored, OffsetsWhere(was, (b: Block) => Inside(b, offset, size)), length))
  {
    hide OffsetsWhere;
    hide Shaped;
    hide PendingIn;
    hide Blanked;
    BlankedShape(was, now, length, offset, size);
    var inside := (b: Block) => Inside(b, offset, size);
    var after := Filled(stored, OffsetsWhere(was, inside), length);
    forall i | 0 <= i < |now|
      ensures if now[i].offset in after then now[i].data == after[now[i].offset] != [] else now[i].data == []
    {
      OffsetsWhereIff(was, length, inside, i);
      BlankedBlock(was, length, i, offset, size);
    }
  }

  lemma BlankedShape(was: seq<Block>, now: seq<Block>, length: nat, offset: nat, size: nat)
    requires Shaped(was, length)
    requires Mapped(now, was, (b: Block) => Blanked(b, offset, size))
    ensures Shaped(now, length) && PendingIn(now) == PendingIn(was)
  {
    SamePending(was, now);
  }

  lemma BlankedBlock(was: seq<Block>, length: nat, i: nat, offset: nat, size: nat)
    requires Shaped(was, length) && i < |was|
    ensures
      var b := Blanked(was[i], offset, size);
      && b.offset == was[i].offset < length
      && b.data == (if Inside(was[i], offset, size) then Zeros(Min(CHUNK_LEN, length - was[i].offset)) else was[i].data)
      && (Inside(was[i], offset, size) ==> b.data != [])
  {
    assert |Zeros(was[i].length)| == was[i].length;
  }

  lemma PurgedKeeps(was: seq<Block>, now: seq<Block>, length: nat, stored: map<nat, seq<byte>>, iip: nat)
    requires Shaped(was, length) && Remembers(was, stored)
    requires Mapped(now, was, (b: Block) => Purged(b, iip))
    ensures Shaped(now, length) && PendingIn(now) == PendingIn(was)
    ensures Remembers(now, stored - OffsetsWhere(was, (b: Block) => b.source != iip))
  {
    SamePending(was, now);
    var left := stored - OffsetsWhere(was, (b: Block) => b.source != iip);
    forall i | 0 <= i < |now|
      ensures if now[i].offset in left then now[i].data == left[now[i].offset] != [] else now[i].data == []
    {
      OffsetsWhereIff(was, length, (b: Block) => b.source != iip, i);
    }
  }

  ghost function PutAlien(bs: seq<Block>, length: nat, iip: nat, offset: nat, data: seq<byte>): seq<Block> {
    if IsBlock(length, offset, |data|) && offset / CHUNK_LEN < |bs| then
      bs[offset / CHUNK_LEN := bs[offset / CHUNK_LEN].(data := data, source := iip)]
    else bs
  }

  ghost function PutOrphans(bs: seq<Block>, length: nat, orphans: seq<Orphan>): seq<Block> {
    if orphans == [] then bs else
      var o := orphans[|orphans| - 1];
      PutAlien(PutOrphans(bs, length, orphans[..|orphans| - 1]), length, o.source, o.offset, o.data)
  }

  ghost predicate SameBlock(a: Block, b: Block) {
    a.data == b.data && (a.data != [] ==> a.source == b.source)
  }

  /** Blocks that hold the same data from the same sources. */
  ghost predicate SameData(a: seq<Block>, b: seq<Block>) {
    && |a| == |b|
    && forall i :: 0 <= i < |a| ==> SameBlock(a[i], b[i])
  }

  /** The first `n` blocks hold what was left, the others are as they were. */
  ghost predicate Handed(got: seq<Block>, left: seq<Block>, anew: seq<Block>, n: nat) {
    && n <= |left| == |got| == |anew|
    && (forall i :: 0 <= i < n ==> SameBlock(left[i], got[i]))
    && (forall i :: n <= i < |got| ==> got[i] == anew[i])
  }

  /** Handing over the first `n` blocks fills exactly those. */
  lemma {:induction false} OrphansFill(left: seq<Block>, anew: seq<Block>, length: nat, index: int, n: nat)
    requires Shaped(left, length) && Shaped(anew, length) && Blank(anew) && n <= |left|
    ensures Handed(PutOrphans(anew, length, OrphansOf(left[..n], index)), left, anew, n)
  {
    hide Shaped;
    hide PutAlien;
    hide PutOrphans;
    hide OrphansOf;
    hide Handed;
    hide Blank;
    ShapedSizes(left, anew, length);
    var after := PutOrphans(anew, length, OrphansOf(left[..n], index));
    if n == 0 {
      NothingHanded(left, anew, length, index);
      assert left[..0] == [];
    } else {
      OrphansFill(left, anew, length, index, n - 1);
      var before := PutOrphans(anew, length, OrphansOf(left[..n - 1], index));
      assert left[..n][..n - 1] == left[..n - 1] && left[..n][n - 1] == left[n - 1];
      OrphansStep(left[..n], anew, length, index);
      HandedSizes(before, left, anew, n - 1);
      if left[n - 1].data != [] {
        PutAlienAt(before, left, length, n - 1);
      }
      HandedStep(before, after, left, anew, n);
    }
  }

  lemma NothingHanded(left: seq<Block>, anew: seq<Block>, length: nat, index: int)
    requires |left| == |anew|
    ensures Handed(PutOrphans(anew, length, OrphansOf([], index)), left, anew, 0)
  {
  }

  lemma HandedSizes(got: seq<Block>, left: seq<Block>, anew: seq<Block>, n: nat)
    requires Handed(got, left, anew, n)
    ensures |got| == |left| == |anew|
  {
  }

  lemma HandedStep(before: seq<Block>, after: seq<Block>, left: seq<Block>, anew: seq<Block>, n: nat)
    requires 0 < n <= |left| && Blank(anew) && Handed(before, left, anew, n - 1)
    requires after == if left[n - 1].data != []
                      then before[n - 1 := before[n - 1].(data := left[n - 1].data, source := left[n - 1].source)]
                      else before
    ensures Handed(after, left, anew, n)
  {
  }

  lemma ShapedSizes(a: seq<Block>, b: seq<Block>, length: nat)
    requires Shaped(a, length) && Shaped(b, length)
    ensures |a| == |b|
  {
  }

  lemma PutAlienAt(bs: seq<Block>, left: seq<Block>, length: nat, i: nat)
    requires Shaped(left, length) && i < |left| == |bs| && left[i].data != []
    ensures PutAlien(bs, length, left[i].source, left[i].offset, left[i].data)
         == bs[i := bs[i].(data := left[i].data, source := left[i].source)]
  {
    BlockFound(left, length, left[i].offset, left[i].length);
  }

  lemma OrphansStep(left: seq<Block>, anew: seq<Block>, length: nat, index: int)
    requires left != []
    ensures
      var b := left[|left| - 1];
      var before := PutOrphans(anew, length, OrphansOf(left[..|left| - 1], index));
      PutOrphans(anew, length, OrphansOf(left, index))
        == if b.data != [] then PutAlien(before, length, b.source, b.offset, b.data) else before
  {
    hide PutAlien;
    var b := left[|left| - 1];
    var before := OrphansOf(left[..|left| - 1], index);
    if b.data != [] {
      var all := before + [Orphan(index, b.offset, b.source, b.data)];
      assert OrphansOf(left, index) == all;
      assert all[..|all| - 1] == before;
    } else {
      assert OrphansOf(left, index) == before;
    }
  }

  /** A fresh request that takes over a leaving peer's orphans holds exactly what that peer had. */
  lemma OrphansRestore(left: seq<Block>, anew: seq<Block>, length: nat, index: int)
    requires Shaped(left, length) && Shaped(anew, length) && Blank(anew)
    ensures SameData(PutOrphans(anew, length, OrphansOf(left, index)), left)
  {
    OrphansFill(left, anew, length, index, |left|);
    assert left[..|left|] == left;
  }

  function PendingList(bs: seq<Block>): seq<(nat, nat)> {
    if bs == [] then [] else
      var b := bs[|bs| - 1];
      PendingList(bs[..|bs| - 1]) + (if b.pending then [(b.offset, b.length)] else [])
  }

  lemma {:induction false} PendingListCounts(bs: seq<Block>)
    ensures |PendingList(bs)| == PendingIn(bs)
  {
    if bs != [] {
      PendingListCounts(bs[..|bs| - 1]);
    }
  }

  lemma {:induction false} PendingListPrefix(bs: seq<Block>, n: nat)
    requires n <= |bs|
    ensures PendingList(bs[..n]) <= PendingList(bs)
    decreases |bs|
  {
    if n < |bs| {
      assert bs[..|bs| - 1][..n] == bs[..n];
      PendingListPrefix(bs[..|bs| - 1], n);
    } else {
      assert bs[..n] == bs;
    }
  }

  /** Every block range of the piece holds what was stored there last. */
  ghost predicate HoldsLast(data: seq<byte>, length: nat, stored: map<nat, seq<byte>>) {
    forall o: nat, n: nat :: IsBlock(length, o, n) ==>
      o + n <= |data| && o in stored && data[o..o + n] == stored[o]
  }

  lemma AssembledHolds(bs: seq<Block>, length: nat, stored: map<nat, seq<byte>>)
    requires Shaped(bs, length) && Remembers(bs, stored)
    ensures |Assembled(bs)| == length <==> Full(bs)
    ensures Full(bs) ==> HoldsLast(Assembled(bs), length, stored)
  {
    ShapedIsPartition(bs, length);
    AssembledShort(bs, length);
    if Full(bs) {
      AssembledInPlace(bs, length);
      forall o: nat, n: nat | IsBlock(length, o, n)
        ensures o + n <= |Assembled(bs)| && o in stored && Assembled(bs)[o..o + n] == stored[o]
      {
        BlockFound(bs, length, o, n);
        assert InPlace(Assembled(bs), bs[o / CHUNK_LEN]);
      }
    }
  }

  class SingleRequest {
    var index: int
    var length: nat
    var blocks: seq<Block>
    var nPending: int
    ghost var stored: map<nat, seq<byte>>  // by block offset, the data stored last and not dropped since

    /** Bytes of the piece being fetched; none when there is no piece. */
    ghost function Size(): nat
      reads this
    {
      if index < 0 then 0 else length
    }

    ghost predicate Valid()
      reads this
    {
      Shaped(blocks, Size()) && nPending == PendingIn(blocks) && Remembers(blocks, stored)
    }

    constructor ()
      ensures Valid() && Empty() && blocks == [] && stored == map[]
    {
      index, length, blocks, nPending, stored := -1, 0, [], 0, map[];
    }

    predicate Empty()
      reads this
    {
      index < 0
    }

    /** Starts a piece. The list is not cleared first: it has to be empty for the result to be a partition. */
    method Init(i: int, size: nat)
      modifies this
      ensures i < 0 ==> index == -1 && nPending == 0
      ensures i < 0 ==> blocks == old(blocks) && length == old(length) && stored == old(stored)
      ensures i >= 0 ==> index == i && length == size && nPending == 0
      ensures i >= 0 && old(blocks) == [] ==> Valid() && stored == map[] && Blank(blocks)
      ensures i >= 0 && Solid(old(blocks)) ==> (Partition(blocks, size) <==> old(blocks) == [])
    {
      nPending := 0;
      if i < 0 {
        index := -1;
      } else {
        index, length, stored := i, size, map[];
        Decompose();
      }
    }

    method Decompose()
      modifies this`blocks
      ensures old(blocks) == [] ==> Shaped(blocks, length) && Blank(blocks) && PendingIn(blocks) == 0
      ensures Solid(old(blocks)) ==> (Partition(blocks, length) <==> old(blocks) == [])
    {
      hide Laid;
      hide Partition;
      hide Shaped;
      hide PendingIn;
      ghost var before := blocks;
      ghost var added: seq<Block> := [];
      var offset := 0;
      NothingLaid(length);
      while offset < length
        invariant offset <= length
        invariant blocks == before + added
        invariant Laid(added, length, offset)
      {
        var size := if CHUNK_LEN < length - offset then CHUNK_LEN else length - offset;
        LaidGrows(added, length, offset);
        added := added + [Block(offset, size, 0, false, [])];
        blocks := blocks + [Block(offset, size, 0, false, [])];
        offset := offset + size;
      }
      LaidDone(added, length);
      assert before == [] ==> blocks == added;
      if Solid(before) {
        DecomposeTwiceIff(before, added, length);
      }
    }

    method Reset()
      modifies this
      ensures Valid() && Empty() && blocks == [] && stored == map[]
    {
      index, blocks, nPending, stored := -1, [], 0, map[];
    }

    /** The first block with this offset and, when a size is asked for, this size. */
    method Locate(offset: nat, size: nat) returns (i: nat)
      requires Valid()
      ensures i <= |blocks|
      ensures i < |blocks| <==> IsBlock(Size(), offset, size)
      ensures i < |blocks| ==> blocks[i].offset == offset && blocks[i].length == size
    {
      BlockFound(blocks, Size(), offset, size);
      i := 0;
      while i < |blocks|
        invariant i <= |blocks|
        invariant forall k :: 0 <= k < i ==> blocks[k].offset != offset || blocks[k].length != size
      {
        if blocks[i].offset == offset && blocks[i].length == size {
          return;
        }
        i := i + 1;
      }
    }

    /** Data from the peer is taken exactly when it fills one block; the block is no longer asked for. */
    method SetData(offset: nat, data: seq<byte>) returns (ok: bool)
      requires Valid()
      modifies this`blocks, this`nPending, this`stored
      ensures Valid()
      ensures ok <==> IsBlock(Size(), offset, |data|)
      ensures !ok ==> blocks == old(blocks) && nPending == old(nPending) && stored == old(stored)
      ensures ok ==> offset / CHUNK_LEN < |old(blocks)|
      ensures ok ==> var i := offset / CHUNK_LEN;
                     blocks == old(blocks)[i := old(blocks)[i].(data := data, pending := false)]
                     && stored == old(stored)[offset := data]
    {
      BlockFound(blocks, Size(), offset, |data|);
      var i := Locate(offset, |data|);
      if i == |blocks| {
        return false;
      }
      var b := blocks[i].(data := data, pending := false);
      ReplaceKeeps(blocks, Size(), i, b);
      StoreRemembered(blocks, Size(), stored, i, b);
      if blocks[i].pending {
        nPending := nPending - 1;
      }
      blocks := blocks[i := b];
      stored := stored[offset := data];
      return true;
    }

    /** Data left behind by another peer: the block keeps its pending mark. */
    method SetAlien(iip: nat, offset: nat, data: seq<byte>)
      requires Valid()
      modifies this`blocks, this`stored
      ensures Valid()
      ensures blocks == PutAlien(old(blocks), Size(), iip, offset, data)
      ensures stored == if IsBlock(Size(), offset, |data|) then old(stored)[offset := data] else old(stored)
    {
      BlockFound(blocks, Size(), offset, |data|);
      var i := Locate(offset, |data|);
      if i < |blocks| {
        var b := blocks[i].(data := data, source := iip);
        ReplaceKeeps(blocks, Size(), i, b);
        StoreRemembered(blocks, Size(), stored, i, b);
        blocks := blocks[i := b];
        stored := stored[offset := data];
      }
    }

    /** Everything other peers left for this piece is put in, in order. */
    method TakeOrphans(orphans: seq<Orphan>)
      requires Valid()
      modifies this`blocks, this`stored
      ensures Valid()
      ensures blocks == PutOrphans(old(blocks), Size(), orphans)
    {
      var i := 0;
      while i < |orphans|
        invariant i <= |orphans| && Valid()
        invariant blocks == PutOrphans(old(blocks), Size(), orphans[..i])
      {
        assert orphans[..i + 1][..i] == orphans[..i];
        SetAlien(orphans[i].source, orphans[i].offset, orphans[i].data);
        i := i + 1;
      }
      assert orphans[..i] == orphans;
    }

    /** The next block to ask for: the first that is neither filled nor asked for. */
    method GetTask() returns (task: Option<(nat, nat)>)
      requires Valid()
      modifies this`blocks, this`nPending
      ensures Valid()
      ensures task.None? ==> blocks == old(blocks) && nPending == old(nPending)
      ensures task.None? <==> forall k :: 0 <= k < |old(blocks)| ==> old(blocks)[k].data != [] || old(blocks)[k].pending
      ensures task.Some? ==>
        exists i: nat ::
          && FirstFree(old(blocks), i)
          && task.value == (old(blocks)[i].offset, old(blocks)[i].length)
          && blocks == old(blocks)[i := old(blocks)[i].(pending := true)]
      ensures task.Some? ==> nPending == old(nPending) + 1
    {
      var i: nat := 0;
      while i < |blocks|
        invariant i <= |blocks|
        invariant forall k :: 0 <= k < i ==> blocks[k].data != [] || blocks[k].pending
      {
        if blocks[i].data == [] && !blocks[i].pending {
          var b := blocks[i].(pending := true);
          assert FirstFree(blocks, i);
          ReplaceKeeps(blocks, Size(), i, b);
          QuietRemembered(blocks, stored, i, b);
          task := Some((b.offset, b.length));
          blocks := blocks[i := b];
          nPending := nPending + 1;
          return;
        }
        i := i + 1;
      }
      return None;
    }

    /** The block at this offset, whatever its size. */
    method LocateOffset(offset: nat) returns (i: nat)
      requires Valid()
      ensures i <= |blocks|
      ensures i < |blocks| <==> offset % CHUNK_LEN == 0 && offset < Size()
      ensures i < |blocks| ==> i == offset / CHUNK_LEN && blocks[i].offset == offset
    {
      OffsetFound(blocks, Size(), offset);
      i := 0;
      while i < |blocks|
        invariant i <= |blocks|
        invariant forall k :: 0 <= k < i ==> blocks[k].offset != offset
      {
        if blocks[i].offset == offset {
          return;
        }
        i := i + 1;
      }
    }

    /** Sets or clears the pending mark of one block. */
    method MarkBlock(offset: nat, mark: bool) returns (found: bool)
      requires Valid()
      modifies this`blocks, this`nPending
      ensures Valid()
      ensures found <==> offset % CHUNK_LEN == 0 && offset < Size()
      ensures !found ==> blocks == old(blocks)
      ensures found ==> var i := offset / CHUNK_LEN;
                i < |old(blocks)| && blocks == old(blocks)[i := old(blocks)[i].(pending := mark)]
      ensures
        var i := offset / CHUNK_LEN;
        var was := if found && i < |old(blocks)| then old(blocks)[i].pending else mark;
        nPending == old(nPending) + Counted(mark) - Counted(was)
    {
      var i := LocateOffset(offset);
      if i == |blocks| {
        return false;
      }
      var b := blocks[i].(pending := mark);
      ReplaceKeeps(blocks, Size(), i, b);
      QuietRemembered(blocks, stored, i, b);
      if blocks[i].pending != mark {
        nPending := if mark then nPending + 1 else nPending - 1;
      }
      blocks := blocks[i := b];
      return true;
    }

    method IsPendingRequest(offset: nat) returns (pending: bool)
      requires Valid()
      ensures pending <==> offset % CHUNK_LEN == 0 && offset < Size() &&
                           offset / CHUNK_LEN < |blocks| && blocks[offset / CHUNK_LEN].pending
    {
      var i := LocateOffset(offset);
      pending := i < |blocks| && blocks[i].pending;
    }

    method MarkPendingRequest(offset: nat) returns (found: bool)
      requires Valid()
      modifies this`blocks, this`nPending
      ensures Valid()
      ensures found <==> offset % CHUNK_LEN == 0 && offset < Size()
      ensures !found ==> blocks == old(blocks)
      ensures found ==> var i := offset / CHUNK_LEN;
                i < |old(blocks)| && blocks == old(blocks)[i := old(blocks)[i].(pending := true)]
      ensures found && offset / CHUNK_LEN < |old(blocks)| && !old(blocks)[offset / CHUNK_LEN].pending ==>
                nPending == old(nPending) + 1
      ensures !found ==> nPending == old(nPending)
    {
      found := MarkBlock(offset, true);
    }

    method ResetPendingRequest(offset: nat)
      requires Valid()
      modifies this`blocks, this`nPending
      ensures Valid()
      ensures if offset % CHUNK_LEN == 0 && offset < Size()
              then
                var i := offset / CHUNK_LEN;
                i < |old(blocks)| && blocks == old(blocks)[i := old(blocks)[i].(pending := false)]
              else blocks == old(blocks)
    {
      var _ := MarkBlock(offset, false);
    }

    method ResetAllPending()
      requires Valid()
      modifies this`blocks, this`nPending
      ensures Valid() && nPending == 0
      ensures Mapped(blocks, old(blocks), (b: Block) => b.(pending := false))
    {
      ghost var was := blocks;
      var i := 0;
      while i < |blocks|
        modifies this`blocks
        invariant i <= |blocks| == |was|
        invariant forall k :: 0 <= k < i ==> blocks[k] == was[k].(pending := false)
        invariant forall k :: i <= k < |blocks| ==> blocks[k] == was[k]
      {
        blocks := blocks[i := blocks[i].(pending := false)];
        i := i + 1;
      }
      nPending := 0;
      NonePending(blocks);
    }

    /** A stretch of padding is known to be zero: every block inside it is filled. */
    method SetVirtualData(offset: nat, size: nat)
      requires Valid()
      modifies this`blocks, this`stored
      ensures Valid()
      ensures Mapped(blocks, old(blocks), (b: Block) => Blanked(b, offset, size))
      ensures stored == Filled(old(stored), OffsetsWhere(old(blocks), (b: Block) => Inside(b, offset, size)), Size())
    {
      ghost var was := blocks;
      var i := 0;
      while i < |blocks|
        modifies this`blocks
        invariant i <= |blocks| == |was|
        invariant forall k :: 0 <= k < i ==> blocks[k] == Blanked(was[k], offset, size)
        invariant forall k :: i <= k < |blocks| ==> blocks[k] == was[k]
      {
        var b := blocks[i];
        if b.offset >= offset && b.offset + b.length <= offset + size {
          blocks := blocks[i := b.(data := Zeros(b.length), source := 0)];
        }
        i := i + 1;
      }
      BlankedKeeps(was, blocks, Size(), stored, offset, size);
      stored := Filled(stored, OffsetsWhere(was, (b: Block) => Inside(b, offset, size)), Size());
    }

    /** After a failed hash: everything that is not from this peer is dropped. */
    method ClearAlien(iip: nat)
      requires Valid()
      modifies this`blocks, this`stored
      ensures Valid()
      ensures Mapped(blocks, old(blocks), (b: Block) => Purged(b, iip))
      ensures stored == old(stored) - OffsetsWhere(old(blocks), (b: Block) => b.source != iip)
    {
      ghost var was := blocks;
      var i := 0;
      while i < |blocks|
        modifies this`blocks
        invariant i <= |blocks| == |was|
        invariant forall k :: 0 <= k < i ==> blocks[k] == Purged(was[k], iip)
        invariant forall k :: i <= k < |blocks| ==> blocks[k] == was[k]
      {
        if blocks[i].source != iip && blocks[i].data != [] {
          blocks := blocks[i := blocks[i].(data := [], source := 0)];
        }
        i := i + 1;
      }
      PurgedKeeps(was, blocks, Size(), stored, iip);
      stored := stored - OffsetsWhere(was, (b: Block) => b.source != iip);
    }

    method HaveAlien(iip: nat) returns (have: bool)
      ensures have <==> exists b :: b in blocks && b.source == iip
    {
      var i := 0;
      while i < |blocks|
        invariant i <= |blocks|
        invariant forall k :: 0 <= k < i ==> blocks[k].source != iip
      {
        if blocks[i].source == iip {
          return true;
        }
        i := i + 1;
      }
      return false;
    }

    /** The blocks asked for, at most `size` of them, in order. */
    method GetPendingRequest(size: nat) returns (list: seq<(nat, nat)>)
      requires Valid() && size > 0
      ensures |list| == Min(size, nPending)
      ensures list <= PendingList(blocks)
    {
      PendingListCounts(blocks);
      list := [];
      var i := 0;
      while i < |blocks|
        invariant i <= |blocks| && list == PendingList(blocks[..i]) && |list| < size
      {
        assert blocks[..i + 1][..i] == blocks[..i];
        if blocks[i].pending {
          list := list + [(blocks[i].offset, blocks[i].length)];
          if |list| >= size {
            assert list == PendingList(blocks[..i + 1]);
            PendingListPrefix(blocks, i + 1);
            return;
          }
        }
        i := i + 1;
      }
      assert blocks[..i] == blocks;
    }

    method IsFinish() returns (done: bool)
      requires Valid()
      ensures done <==> Full(blocks)
      ensures done <==> forall o :: 0 <= o < Size() && o % CHUNK_LEN == 0 ==> o in stored
    {
      done := true;
      var i := 0;
      while i < |blocks|
        invariant i <= |blocks|
        invariant forall k :: 0 <= k < i ==> blocks[k].data != []
      {
        if blocks[i].data == [] {
          var o := blocks[i].offset;
          assert o !in stored && o % CHUNK_LEN == 0;
          return false;
        }
        i := i + 1;
      }
      forall o | 0 <= o < Size() && o % CHUNK_LEN == 0 ensures o in stored {
        assert blocks[o / CHUNK_LEN].offset == o;
      }
    }

    /**
      The whole piece. It has the piece's length exactly when nothing is
      missing, and then every block range holds the data stored there last.
    */
    method GetPieceData() returns (data: seq<byte>)
      requires Valid()
      ensures data == Assembled(blocks)
      ensures |data| == Size() <==> Full(blocks)
      ensures Full(blocks) ==> HoldsLast(data, Size(), stored)
    {
      hide Shaped;
      hide Remembers;
      hide PendingIn;
      hide HoldsLast;
      hide Full;
      data := [];
      var i := 0;
      while i < |blocks|
        invariant i <= |blocks| && data == Assembled(blocks[..i])
      {
        assert blocks[..i + 1][..i] == blocks[..i];
        data := data + blocks[i].data;
        i := i + 1;
      }
      assert blocks[..i] == blocks;
      AssembledHolds(blocks, Size(), stored);
    }

    /** What the peer leaves to others when it goes. */
    method GetOrphans() returns (orphans: seq<Orphan>)
      requires Valid()
      ensures orphans == OrphansOf(blocks, index)
    {
      orphans := [];
      var i := 0;
      while i < |blocks|
        invariant i <= |blocks| && orphans == OrphansOf(blocks[..i], index)
      {
        assert blocks[..i + 1][..i] == blocks[..i];
        if blocks[i].data != [] {
          orphans := orphans + [Orphan(index, blocks[i].offset, blocks[i].source, blocks[i].data)];
        }
        i := i + 1;
      }
      assert blocks[..i] == blocks;
    }
  }
}
