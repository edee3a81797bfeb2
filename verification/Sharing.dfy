/**
  Pieces fetched by several peers together: the shared block list, and the two
  ways it hands a piece to the store.
*/
module Sharing {
  import opened Common
  import opened Geometry
  import opened Storage
  import Single = SingleRequest

  const CHUNK_LEN := Single.CHUNK_LEN
  const SHORT := 0x1_0000  // the counters are unsigned 16-bit numbers

  datatype Block = Block(offset: nat, length: nat, pending: nat, confirm: nat, source: nat, data: seq<byte>)

  function Less(n: nat): nat { if n == 0 then SHORT - 1 else n - 1 }

  function Assembled(bs: seq<Block>): seq<byte> {
    if bs == [] then [] else Assembled(bs[..|bs| - 1]) + bs[|bs| - 1].data
  }

  ghost predicate Full(bs: seq<Block>) { forall i :: 0 <= i < |bs| ==> bs[i].data != [] }

  /** The blocks of a piece of this length, in order and without gaps. */
  ghost predicate Shaped(bs: seq<Block>, length: nat) {
    && |bs| == (length + CHUNK_LEN - 1) / CHUNK_LEN
    && forall i :: 0 <= i < |bs| ==>
         && bs[i].offset == i * CHUNK_LEN
         && bs[i].length == Min(CHUNK_LEN, length - bs[i].offset)
         && bs[i].length > 0
         && bs[i].pending < SHORT
  }

  /** Every filled block has exactly its block's size. Nothing enforces it when data comes in. */
  ghost predicate Sized(bs: seq<Block>) {
    forall i :: 0 <= i < |bs| ==> bs[i].data == [] || |bs[i].data| == bs[i].length
  }

  /** Sized and complete blocks make a piece of the right length. */
  lemma {:induction false} SizedLength(bs: seq<Block>, n: nat, length: nat)
    requires Shaped(bs, length) && Sized(bs) && Full(bs) && n <= |bs|
    ensures |Assembled(bs[..n])| == Min(n * CHUNK_LEN, length)
  {
    if n > 0 {
      SizedLength(bs, n - 1, length);
      assert bs[..n][..n - 1] == bs[..n - 1];
    }
  }

  /** A block can be asked for: it is empty and its count is not at the largest 16-bit number. */
  predicate Askable(b: Block) { b.data == [] && b.pending < SHORT - 1 }

  /** The effect of data for one block: first come is kept, differing data replaces what is unconfirmed. */
  function Received(b: Block, iip: nat, data: seq<byte>): Block {
    var c := b.(pending := Less(b.pending));
    if b.data == [] then c.(source := iip, data := data)
    else if b.data != data then (if b.confirm == 0 then c.(data := data, source := iip) else c)
    else if iip != b.source then c.(confirm := (b.confirm + 1) % SHORT)
    else c
  }

  /** After a failed hash a block confirmed less often than the piece has failed is dropped. */
  function Cleared(b: Block, failTimes: nat): Block {
    if b.data != [] && b.confirm < failTimes then b.(data := [], source := 0) else b
  }

  function Padded(b: Block, offset: nat, size: nat): Block {
    if b.offset >= offset && b.offset + b.length <= offset + size then b.(data := Zeros(b.length)) else b
  }

  // ----------------------------------------------------------- the life of one block

  /** What can happen to a block: it is asked for, data comes in, it is looked at after a failed hash. */
  datatype Event = Asked | Delivered(iip: nat, data: seq<byte>) | Dropped(failTimes: nat)

  function Step(b: Block, e: Event): Block {
    match e
    case Asked => if Askable(b) then b.(pending := b.pending + 1) else b
    case Delivered(iip, data) => Received(b, iip, data)
    case Dropped(failTimes) => Cleared(b, failTimes)
  }

  function After(b: Block, es: seq<Event>): Block {
    if es == [] then b else Step(After(b, es[..|es| - 1]), es[|es| - 1])
  }

  /** How often the block was handed out, and how often data for it came in. */
  function Asks(b: Block, es: seq<Event>): nat {
    if es == [] then 0 else
      Asks(b, es[..|es| - 1]) + (if es[|es| - 1].Asked? && Askable(After(b, es[..|es| - 1])) then 1 else 0)
  }

  function Deliveries(es: seq<Event>): nat {
    if es == [] then 0 else Deliveries(es[..|es| - 1]) + (if es[|es| - 1].Delivered? then 1 else 0)
  }

  lemma {:induction false} PendingBalance(b: Block, es: seq<Event>)
    requires b.pending < SHORT
    ensures After(b, es).pending == (b.pending + Asks(b, es) - Deliveries(es)) % 0x1_0000
  {
    if es != [] {
      PendingBalance(b, es[..|es| - 1]);
    }
  }

  /**
    Over any history a block can be handed out exactly when it is empty and data for
    it has not come in once more often, modulo 2^16, than it was asked for.
  */
  lemma AskableIff(b: Block, es: seq<Event>)
    requires b.pending == 0
    ensures Askable(After(b, es)) <==> After(b, es).data == [] && (Deliveries(es) - Asks(b, es)) % 0x1_0000 != 1
  {
    hide After;
    hide Asks;
    hide Deliveries;
    PendingBalance(b, es);
    Opposite(Asks(b, es) - Deliveries(es));
  }

  /** How many deliveries bring the data that a block has from a peer that is not its source. */
  function Agreeing(b: Block, es: seq<Event>): nat {
    if es == [] then 0 else
      var e := es[|es| - 1];
      Agreeing(b, es[..|es| - 1]) + (if e.Delivered? && e.data == b.data && e.iip != b.source then 1 else 0)
  }

  ghost predicate NoDrop(es: seq<Event>) { forall e :: e in es ==> !e.Dropped? }

  /**
    What another peer has confirmed stays, source and all, whatever comes in, and every
    peer but the source that brings the same adds one to the count; until the count of
    16 bits wraps, which takes as many deliveries as are missing to 2^16, or a failed hash.
  */
  lemma {:induction false} ConfirmedStays(b: Block, es: seq<Event>)
    requires b.data != [] && 0 < b.confirm && b.confirm + Deliveries(es) < 0x1_0000 && NoDrop(es)
    ensures After(b, es).data == b.data && After(b, es).source == b.source
    ensures After(b, es).confirm == b.confirm + Agreeing(b, es)
    ensures Agreeing(b, es) <= Deliveries(es)
  {
    hide Step;
    if es != [] {
      ConfirmedStays(b, es[..|es| - 1]);
      assert es[|es| - 1] in es;
      ConfirmedStep(After(b, es[..|es| - 1]), es[|es| - 1]);
    }
  }

  lemma ConfirmedStep(b: Block, e: Event)
    requires b.data != [] && 0 < b.confirm < SHORT && (e.Delivered? ==> b.confirm < SHORT - 1) && !e.Dropped?
    ensures Step(b, e).data == b.data && Step(b, e).source == b.source
    ensures Step(b, e).confirm == b.confirm + if e.Delivered? && e.data == b.data && e.iip != b.source then 1 else 0
  {
  }

  /** Unconfirmed data gives way to anything that differs from it; the first data in an empty block is kept. */
  lemma UnconfirmedGivesWay(b: Block, iip: nat, data: seq<byte>)
    requires b.data == [] || (b.confirm == 0 && b.data != data)
    ensures Received(b, iip, data) == b.(pending := Less(b.pending), source := iip, data := data)
  {
  }

  /** A failed hash empties exactly the blocks confirmed less often than the piece has failed. */
  lemma ClearedIff(b: Block, failTimes: nat)
    ensures Cleared(b, failTimes).data == [] <==> b.data == [] || b.confirm < failTimes
    ensures b.data == [] || b.confirm >= failTimes ==> Cleared(b, failTimes) == b
    ensures Cleared(b, failTimes).pending == b.pending && Cleared(b, failTimes).confirm == b.confirm
  {
  }

  lemma Opposite(x: int)
    ensures x % SHORT == SHORT - 1 <==> -x % SHORT == 1
  {
    var q, r := x / SHORT, x % SHORT;
    assert -x == (-q - 1) * SHORT + (SHORT - r);
  }

  /**
    So data nobody asked for, as orphans are, makes a block unavailable once it is
    dropped; the next delivery and drop make it available again.
  */
  lemma UnaskedDataStrands(b: Block, x: nat, first: seq<byte>, y: nat, second: seq<byte>)
    requires b.data == [] && b.pending == 0 && b.confirm == 0 && first != [] && second != []
    ensures
      var once := After(b, [Delivered(x, first), Dropped(1)]);
      once.data == [] && !Askable(once) && Askable(After(once, [Delivered(y, second), Dropped(2)]))
  {
    var es, fs := [Delivered(x, first), Dropped(1)], [Delivered(y, second), Dropped(2)];
    assert es[..1] == [es[0]] && es[..1][..0] == [] && fs[..1] == [fs[0]] && fs[..1][..0] == [];
    assert After(b, es[..1]) == Received(b, x, first);
    var once := After(b, es);
    assert After(once, fs[..1]) == Received(once, y, second);
  }

  // ------------------------------------------------------------- the list of blocks

  ghost function Decomposed(length: nat): seq<Block> {
    seq((length + CHUNK_LEN - 1) / CHUNK_LEN,
        k requires 0 <= k => Block(k * CHUNK_LEN, Max(0, Min(CHUNK_LEN, length - k * CHUNK_LEN)), 0, 0, 0, []))
  }

  ghost function Put(bs: seq<Block>, length: nat, iip: nat, offset: nat, data: seq<byte>): seq<Block> {
    if offset % CHUNK_LEN == 0 && offset < length && offset / CHUNK_LEN < |bs| then
      bs[offset / CHUNK_LEN := Received(bs[offset / CHUNK_LEN], iip, data)]
    else bs
  }

  ghost function PutAll(bs: seq<Block>, length: nat, orphans: seq<Single.Orphan>): seq<Block> {
    if orphans == [] then bs else
      var o := orphans[|orphans| - 1];
      Put(PutAll(bs, length, orphans[..|orphans| - 1]), length, o.source, o.offset, o.data)
  }

  ghost function AllPadded(bs: seq<Block>, padding: Option<(nat, nat)>): seq<Block> {
    if padding.None? then bs
    else seq(|bs|, k requires 0 <= k < |bs| => Padded(bs[k], padding.value.0, padding.value.1))
  }

  /** A new request with its padding and what peers left behind. */
  ghost function Started(length: nat, padding: Option<(nat, nat)>, orphans: seq<Single.Orphan>): seq<Block> {
    PutAll(AllPadded(Decomposed(length), padding), length, orphans)
  }

  ghost function AllCleared(bs: seq<Block>, failTimes: nat): seq<Block> {
    seq(|bs|, k requires 0 <= k < |bs| => Cleared(bs[k], failTimes))
  }

  /** What a new request is left with when the store has not taken it: a failed hash starts it anew. */
  ghost function Opened(length: nat, bs: seq<Block>): seq<Block> {
    if Full(bs) then Decomposed(length) else bs
  }

  /** Data for a block has the block's size. */
  ghost predicate RightSize(length: nat, offset: nat, data: seq<byte>) {
    offset % CHUNK_LEN == 0 && offset < length ==> |data| == Min(CHUNK_LEN, length - offset)
  }

  lemma PutKeepsSized(bs: seq<Block>, length: nat, iip: nat, offset: nat, data: seq<byte>)
    requires Shaped(bs, length) && Sized(bs) && RightSize(length, offset, data)
    ensures Sized(Put(bs, length, iip, offset, data))
  {
  }

  lemma PutKeepsShape(bs: seq<Block>, length: nat, iip: nat, offset: nat, data: seq<byte>)
    requires Shaped(bs, length)
    ensures Shaped(Put(bs, length, iip, offset, data), length)
  {
  }

  /** If what peers left behind has the sizes of its blocks, so has everything in the new request. */
  lemma {:induction false} StartedSized(length: nat, padding: Option<(nat, nat)>, orphans: seq<Single.Orphan>)
    requires forall o :: o in orphans ==> RightSize(length, o.offset, o.data)
    ensures Shaped(Started(length, padding, orphans), length) && Sized(Started(length, padding, orphans))
    decreases |orphans|
  {
    if orphans != [] {
      var n := |orphans| - 1;
      StartedSized(length, padding, orphans[..n]);
      var before, o := Started(length, padding, orphans[..n]), orphans[n];
      PutKeepsSized(before, length, o.source, o.offset, o.data);
      PutKeepsShape(before, length, o.source, o.offset, o.data);
    }
  }

  class ShareRequest {
    var index: int
    var length: nat
    var failTimes: nat
    var priority: int
    var blocks: seq<Block>

    ghost predicate Valid()
      reads this
    {
      Shaped(blocks, length)
    }

    constructor ()
      ensures index == -1 && blocks == []
    {
      index, length, failTimes, priority, blocks := -1, 0, 0, 0, [];
    }

    method Init(i: int, size: nat, prio: int)
      modifies this
      ensures Valid() && index == i && length == size && priority == prio && failTimes == 0
      ensures blocks == Decomposed(size)
    {
      index, length, priority, failTimes := i, size, prio, 0;
      blocks := [];
      var offset := 0;
      while offset < length
        modifies this`blocks
        invariant offset == Min(|blocks| * CHUNK_LEN, length)
        invariant |blocks| * CHUNK_LEN < length + CHUNK_LEN
        invariant forall k :: 0 <= k < |blocks| ==>
                    && k * CHUNK_LEN < length
                    && blocks[k] == Block(k * CHUNK_LEN, Min(CHUNK_LEN, length - k * CHUNK_LEN), 0, 0, 0, [])
      {
        var size := if CHUNK_LEN < length - offset then CHUNK_LEN else length - offset;
        blocks := blocks + [Block(offset, size, 0, 0, 0, [])];
        offset := offset + size;
      }
    }

    /** 0 stored or confirmed, -2 different from what is there, -1 no such block. The size is not looked at. */
    method SetData(iip: nat, offset: nat, data: seq<byte>) returns (code: int)
      requires Valid()
      modifies this`blocks
      ensures Valid()
      ensures blocks == Put(old(blocks), length, iip, offset, data)
      ensures code == -1 <==> offset % CHUNK_LEN != 0 || offset >= length
      ensures code != -1 ==> var i := offset / CHUNK_LEN;
                && i < |old(blocks)|
                && (code == -2 <==> old(blocks)[i].data != [] && old(blocks)[i].data != data)
      ensures code in {0, -1, -2}
    {
      OffsetFound(blocks, length, offset);
      var i := 0;
      while i < |blocks|
        invariant i <= |blocks|
        invariant forall k :: 0 <= k < i ==> blocks[k].offset != offset
      {
        if blocks[i].offset == offset {
          var b := blocks[i];
          b := b.(pending := (b.pending + SHORT - 1) % SHORT);
          code := 0;
          if b.data == [] {
            b := b.(source := iip, data := data);
          } else if b.data != data {
            if b.confirm == 0 {
              b := b.(data := data, source := iip);
            }
            code := -2;
          } else if iip != b.source {
            b := b.(confirm := (b.confirm + 1) % SHORT);
          }
          blocks := blocks[i := b];
          return;
        }
        i := i + 1;
      }
      return -1;
    }

    method IsFinish() returns (done: bool)
      ensures done <==> Full(blocks)
    {
      var i := 0;
      while i < |blocks|
        invariant i <= |blocks| && forall k :: 0 <= k < i ==> blocks[k].data != []
      {
        if blocks[i].data == [] {
          return false;
        }
        i := i + 1;
      }
      return true;
    }

    method GetPieceData() returns (data: seq<byte>)
      requires Valid()
      ensures data == Assembled(blocks)
      ensures Full(blocks) && Sized(blocks) ==> |data| == length
    {
      data := [];
      var i := 0;
      while i < |blocks|
        invariant i <= |blocks| && data == Assembled(blocks[..i])
      {
        assert blocks[..i + 1][..i] == blocks[..i];
        data := data + blocks[i].data;
        i := i + 1;
      }
      assert blocks[..i] == blocks;
      if Full(blocks) && Sized(blocks) {
        SizedLength(blocks, |blocks|, length);
      }
    }

    method CheckHash(hash: int, sha1: seq<byte> -> int) returns (ok: bool)
      requires Valid()
      modifies this`failTimes
      ensures ok <==> sha1(Assembled(blocks)) == hash
      ensures failTimes == if ok then old(failTimes) else (old(failTimes) + 1) % SHORT
    {
      var alldata := GetPieceData();
      ok := sha1(alldata) == hash;
      if !ok {
        failTimes := (failTimes + 1) % SHORT;
      }
    }

    /** The first block that can be asked for, however many were asked already. */
    method GetTask() returns (task: Option<(nat, nat)>)
      requires Valid()
      modifies this`blocks
      ensures Valid()
      ensures task.None? <==> priority <= 0 || forall k :: 0 <= k < |old(blocks)| ==> !Askable(old(blocks)[k])
      ensures Handed(old(blocks), blocks, task)
      ensures task.Some? ==> Single.IsBlock(length, task.value.0, task.value.1)
    {
      hide Shaped;
      hide Single.IsBlock;
      if priority <= 0 {
        return None;
      }
      var i: nat := 0;
      while i < |blocks|
        invariant i <= |blocks| && forall k :: 0 <= k < i ==> !Askable(blocks[k])
      {
        var b := blocks[i];
        if b.data == [] && b.pending < SHORT - 1 {
          assert FirstAskable(blocks, i);
          AskKeepsShape(blocks, length, i);
          blocks := blocks[i := b.(pending := b.pending + 1)];
          return Some((b.offset, b.length));
        }
        i := i + 1;
      }
      return None;
    }

    /** After a failed hash: blocks confirmed less often than the piece has failed are dropped. */
    method ClearComfirmData()
      requires Valid()
      modifies this`blocks
      ensures Valid()
      ensures blocks == AllCleared(old(blocks), failTimes)
    {
      var i := 0;
      while i < |blocks|
        modifies this`blocks
        invariant i <= |blocks| == |old(blocks)|
        invariant forall k :: 0 <= k < |blocks| ==>
                    blocks[k] == if k < i then Cleared(old(blocks)[k], failTimes) else old(blocks)[k]
      {
        if blocks[i].data != [] && blocks[i].confirm < failTimes {
          blocks := blocks[i := blocks[i].(data := [], source := 0)];
        }
        i := i + 1;
      }
    }

    method SetVirtualData(offset: nat, size: nat)
      requires Valid()
      modifies this`blocks
      ensures Valid()
      ensures |blocks| == |old(blocks)|
      ensures forall k :: 0 <= k < |blocks| ==> blocks[k] == Padded(old(blocks)[k], offset, size)
    {
      var i := 0;
      while i < |blocks|
        modifies this`blocks
        invariant i <= |blocks| == |old(blocks)|
        invariant forall k :: 0 <= k < |blocks| ==>
                    blocks[k] == if k < i then Padded(old(blocks)[k], offset, size) else old(blocks)[k]
      {
        var b := blocks[i];
        if b.offset >= offset && b.offset + b.length <= offset + size {
          blocks := blocks[i := b.(data := Zeros(b.length))];
        }
        i := i + 1;
      }
    }
  }

  ghost predicate FirstAskable(bs: seq<Block>, i: nat) {
    i < |bs| && Askable(bs[i]) && forall k :: 0 <= k < i ==> !Askable(bs[k])
  }

  /** The first block that can be asked for is handed out and counted, and nothing else changes. */
  ghost predicate Handed(was: seq<Block>, now: seq<Block>, task: Option<(nat, nat)>) {
    if task.None? then now == was
    else exists i: nat ::
      && FirstAskable(was, i) && task.value == (was[i].offset, was[i].length)
      && now == was[i := was[i].(pending := was[i].pending + 1)]
  }

  lemma AskKeepsShape(bs: seq<Block>, length: nat, i: nat)
    requires Shaped(bs, length) && i < |bs| && Askable(bs[i])
    ensures Shaped(bs[i := bs[i].(pending := bs[i].pending + 1)], length)
    ensures Single.IsBlock(length, bs[i].offset, bs[i].length)
  {
  }

  lemma OffsetFound(bs: seq<Block>, length: nat, offset: nat)
    requires Shaped(bs, length)
    ensures offset % CHUNK_LEN == 0 && offset < length ==>
              offset / CHUNK_LEN < |bs| && bs[offset / CHUNK_LEN].offset == offset
    ensures forall i :: 0 <= i < |bs| && bs[i].offset == offset ==>
              offset % CHUNK_LEN == 0 && offset < length && i == offset / CHUNK_LEN
  {
  }

  // ------------------------------------------------------ the board and the store

  class ShareBoard {
    const store: Storage
    var requests: map<int, ShareRequest>

    /** The requests of the board belong to pieces of the store and are distinct. */
    ghost predicate Consistent()
      reads this, requests.Values
    {
      && store.layout.Valid()
      && (forall i :: i in requests ==>
            && store.layout.HasPiece(i) && requests[i].Valid() && requests[i].index == i
            && requests[i].length == store.layout.PieceLength(i))
      && forall i, j :: i in requests && j in requests && i != j ==> requests[i] != requests[j]
    }

    ghost predicate Valid()
      reads this, store, requests.Values
    {
      store.Valid() && Consistent()
    }

    constructor (store: Storage)
      requires store.Valid()
      ensures Valid() && this.store == store && requests == map[]
    {
      this.store, requests := store, map[];
      new;
      store.ShapeFacts();
    }

    /** The hash accepts these blocks as piece `index`, and the store wants it. */
    ghost predicate Accepts(index: int, bs: seq<Block>)
      requires store.layout.HasPiece(index) && |store.pieceHash| == store.layout.pieceCount
    {
      Full(bs) && store.sha1(Assembled(bs)) == store.pieceHash[index] && store.layout.Wanted(index)
    }

    /** It does so although they are not as long as the piece: nothing but the hash guards the length. */
    ghost predicate WrongLength(index: int, bs: seq<Block>)
      requires store.layout.Valid() && store.layout.HasPiece(index) && |store.pieceHash| == store.layout.pieceCount
    {
      Accepts(index, bs) && |Assembled(bs)| != store.layout.PieceLength(index)
    }

    /** With blocks of the right sizes that cannot happen. */
    lemma SizedIsRight(index: int, bs: seq<Block>)
      requires store.layout.Valid() && store.layout.HasPiece(index) && |store.pieceHash| == store.layout.pieceCount
      requires Shaped(bs, store.layout.PieceLength(index)) && Sized(bs)
      ensures !WrongLength(index, bs)
    {
      if Full(bs) {
        SizedLength(bs, |bs|, store.layout.PieceLength(index));
        assert bs[..|bs|] == bs;
      }
    }

    lemma StoreFacts()
      requires store.Valid()
      ensures |store.pieceHash| == store.layout.pieceCount && |store.priority| == store.layout.pieceCount
      ensures store.content.Keys == store.finished
      ensures store.Configured() && store.layout.Valid()
    {
      store.ConfiguredFacts();
    }

    /** The store takes a complete shared piece if its hash matches. */
    method HandOver(r: ShareRequest, index: int) returns (taken: bool)
      requires store.Valid() && store.layout.HasPiece(index) && index !in store.finished
      requires store.layout.Valid() && |store.pieceHash| == store.layout.pieceCount
      requires r.Valid() && Full(r.blocks)
      modifies store, r`failTimes
      ensures store.Configured() && store.priority == old(store.priority)
      ensures taken <==> store.sha1(Assembled(r.blocks)) == store.pieceHash[index]
      ensures !taken ==> r.failTimes == (old(r.failTimes) + 1) % SHORT
      ensures store.Valid() <==> !WrongLength(index, r.blocks)
      ensures if taken && store.layout.Wanted(index)
              then store.content == old(store.content)[index := Assembled(r.blocks)] &&
                store.finished == old(store.finished) + {index}
              else store.content == old(store.content) && store.Snapshot() == old(store.Snapshot())
    {
      hide Storage.Valid;
      hide Full;
      hide Shaped;
      hide Layout.Wanted;
      hide Layout.Valid;
      StoreFacts();
      taken := r.CheckHash(store.pieceHash[index], store.sha1);
      if taken {
        var piecedata := r.GetPieceData();
        store.WritePiece(index, piecedata);
      }
    }

    /** A new request with its padding and the orphans put in. */
    method Begin(index: int, padding: Option<(nat, nat)>, orphans: seq<Single.Orphan>) returns (request: ShareRequest)
      requires store.Valid() && store.layout.HasPiece(index) && store.layout.Valid()
      ensures fresh(request) && request.Valid() && request.index == index
      ensures request.length == store.layout.PieceLength(index)
      ensures request.blocks == Started(store.layout.PieceLength(index), padding, orphans)
    {
      hide Storage.Valid;
      hide Shaped;
      hide Decomposed;
      hide Put;
      hide Layout.PieceLength;
      hide Layout.Valid;
      StoreFacts();
      request := new ShareRequest();
      request.Init(index, store.layout.PieceLength(index), store.priority[index]);
      if padding.Some? {
        request.SetVirtualData(padding.value.0, padding.value.1);
      }
      ghost var first := AllPadded(Decomposed(store.layout.PieceLength(index)), padding);
      assert request.blocks == first;
      for k := 0 to |orphans|
        invariant fresh(request) && request.Valid() && request.index == index
        invariant request.length == store.layout.PieceLength(index)
        invariant request.blocks == PutAll(first, request.length, orphans[..k])
      {
        assert orphans[..k + 1][..k] == orphans[..k];
        var _ := request.SetData(orphans[k].source, orphans[k].offset, orphans[k].data);
      }
      assert orphans[..|orphans|] == orphans;
    }

    /** Starts a request; what peers left behind may be the whole piece, then the hash decides. */
    method Open(index: int, padding: Option<(nat, nat)>, orphans: seq<Single.Orphan>)
      returns (request: ShareRequest, taken: bool)
      requires store.Valid() && store.layout.HasPiece(index) && index !in store.finished
      requires store.layout.Valid() && |store.pieceHash| == store.layout.pieceCount
      modifies store
      ensures fresh(request) && request.Valid() && request.index == index
      ensures request.length == store.layout.PieceLength(index)
      ensures store.Configured() && store.priority == old(store.priority)
      ensures
        var bs := Started(store.layout.PieceLength(index), padding, orphans);
        && (taken <==> Full(bs) && store.sha1(Assembled(bs)) == store.pieceHash[index])
        && (!taken ==> request.blocks == Opened(store.layout.PieceLength(index), bs))
        && (store.Valid() <==> !WrongLength(index, bs))
        && if Accepts(index, bs)
           then store.content == old(store.content)[index := Assembled(bs)] &&
             store.finished == old(store.finished) + {index}
           else store.content == old(store.content) && store.finished == old(store.finished)
    {
      hide Storage.Valid;
      hide Full;
      hide Shaped;
      hide Layout.Wanted;
      hide Layout.PieceLength;
      hide Layout.Valid;
      hide Started;
      StoreFacts();
      request := Begin(index, padding, orphans);
      taken := false;
      var done := request.IsFinish();
      if done {
        taken := HandOver(request, index);
        if !taken {
          StoreFacts();
          request.Init(index, store.layout.PieceLength(index), store.priority[index]);
        }
      }
    }

    /**
      A peer joins the piece: a new request starts with its padding and whatever
      peers left behind. If that is the whole piece already, the store takes it or,
      when the hash fails, everything is fetched anew. Again everything stays in
      agreement unless that data has the hash but not the length.
    */
    method GetShareTask(index: int, padding: Option<(nat, nat)>, orphans: seq<Single.Orphan>)
      returns (task: Option<(nat, nat)>)
      requires Valid() && store.layout.HasPiece(index)
      modifies store, this, requests.Values
      ensures Consistent() && store.Configured() && |store.pieceHash| == store.layout.pieceCount
      ensures index in old(store.finished) ==> task.None? && requests == old(requests)
      ensures index in old(requests) ==> requests == old(requests)
      ensures index !in old(store.finished) && index in old(requests) ==>
                Handed(old(requests[index].blocks), requests[index].blocks, task)
      ensures index in old(store.finished) || index in old(requests) ==>
                Valid() && store.content == old(store.content) && store.finished == old(store.finished)
      ensures index !in old(store.finished) && index !in old(requests) ==>
        var bs := Started(store.layout.PieceLength(index), padding, orphans);
        && (Valid() <==> !WrongLength(index, bs))
        && (if Full(bs) && store.sha1(Assembled(bs)) == store.pieceHash[index]
            then task.None? && requests == old(requests)
            else && index in requests && fresh(requests[index])
                 && requests == old(requests)[index := requests[index]]
                 && Handed(Opened(store.layout.PieceLength(index), bs), requests[index].blocks, task))
        && if Accepts(index, bs)
           then store.content == old(store.content)[index := Assembled(bs)] &&
             store.finished == old(store.finished) + {index}
           else store.content == old(store.content) && store.finished == old(store.finished)
      ensures task.Some? ==> index in requests && index !in store.finished
      ensures task.Some? ==> Single.IsBlock(store.layout.PieceLength(index), task.value.0, task.value.1)
    {
      hide Storage.Valid;
      hide Full;
      hide Shaped;
      hide Layout.Wanted;
      hide Layout.PieceLength;
      hide Layout.Valid;
      hide Started;
      StoreFacts();
      if index in store.finished {
        return None;
      }
      if index in requests {
        task := requests[index].GetTask();
        return;
      }
      var request, taken := Open(index, padding, orphans);
      if taken {
        return None;
      }
      requests := requests[index := request];
      task := request.GetTask();
    }

    /**
      A block fetched by a cooperating peer. When it completes the piece the store
      takes it exactly when the hash matches, and the request goes; otherwise
      unconfirmed blocks are dropped and fetched again. Everything stays in agreement
      unless the assembled data has the hash but not the length of the piece.
    */
    method SubmitShareData(iip: nat, index: int, offset: nat, data: seq<byte>) returns (more: bool)
      requires Valid() && store.layout.HasPiece(index)
      modifies store, this, requests.Values
      ensures Consistent() && store.Configured() && |store.pieceHash| == store.layout.pieceCount
      ensures index in old(store.finished) || index !in old(requests) ==>
                !more && Valid() && requests == old(requests) && store.content == old(store.content) &&
                  store.finished == old(store.finished)
      ensures index !in old(store.finished) && index in old(requests) ==>
        var bs := Put(old(requests[index].blocks), store.layout.PieceLength(index), iip, offset, data);
        && (more <==> !(Full(bs) && store.sha1(Assembled(bs)) == store.pieceHash[index]))
        && (Valid() <==> !WrongLength(index, bs))
        && requests == (if more then old(requests) else old(requests) - {index})
        && (more ==>
              requests[index].blocks == if Full(bs) then AllCleared(bs, requests[index].failTimes) else bs)
        && if Accepts(index, bs)
           then store.content == old(store.content)[index := Assembled(bs)] &&
             store.finished == old(store.finished) + {index}
           else store.content == old(store.content) && store.finished == old(store.finished)
    {
      hide Storage.Valid;
      hide Full;
      hide Shaped;
      hide Layout.Wanted;
      hide Layout.PieceLength;
      hide Layout.Valid;
      hide Put;
      StoreFacts();
      if index in store.finished {
        return false;
      }
      if index !in requests {
        return false;
      }
      var r := requests[index];
      var code := r.SetData(iip, offset, data);
      var done := r.IsFinish();
      if !done {
        return true;
      }
      var taken := HandOver(r, index);
      if taken {
        requests := requests - {index};
        return false;
      }
      r.ClearComfirmData();
      return true;
    }
  }
}
