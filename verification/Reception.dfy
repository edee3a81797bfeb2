/**
  From blocks to finished pieces: a peer's current request, the board of shared
  requests and the piece store together. All four routes by which a piece gets into
  the store are here, and each ends in a hash check.
*/
module Reception {
  import opened Common
  import opened Geometry
  import opened Storage
  import Sharing
  import opened SingleRequest

  /** What a received block led to. */
  datatype Outcome =
    | Ignored      // the piece is finished already
    | Stray        // not the piece being fetched: kept as an orphan
    | Rejected     // no such piece or block: the connection closes
    | Waiting      // stored, more blocks are missing
    | Completed    // the hash matched and the store has taken the piece
    | Dropped      // the hash failed and some block is marked with this peer's address: all others dropped
    | Cancelled    // the shared piece is complete, or gone from the board: nothing more to fetch
    | Failed       // the hash failed and none is: the piece is given back and the connection closes

  /**
    A list that failed its hash can make progress again exactly when some block is not
    marked with the peer's address: otherwise nothing is dropped and nothing is left to
    ask for. What the peer sends on request leaves a block's mark as it is, 0 at first;
    what it sends unasked is marked with its address.
  */
  lemma PurgeProgressIff(was: seq<Block>, now: seq<Block>, iip: nat)
    requires Full(was) && Mapped(now, was, (b: Block) => Purged(b, iip))
    ensures Full(now) <==> forall b :: b in was ==> b.source == iip
    ensures Full(now) ==> now == was
  {
    forall k | 0 <= k < |was| ensures now[k] == Purged(was[k], iip) {
    }
  }

  /** The test on a list with a wrong hash: it looks for this address where another one is meant. */
  ghost predicate Marked(bs: seq<Block>, iip: nat) {
    exists b :: b in bs && b.source == iip
  }

  const PENDING_REQUEST_SIZE: nat := 12

  ghost predicate NoneFree(bs: seq<Block>) {
    forall k :: 0 <= k < |bs| ==> bs[k].data != [] || bs[k].pending
  }

  /** A list once a block that was asked for has come in. */
  ghost function WithBlock(bs: seq<Block>, offset: nat, block: seq<byte>): seq<Block> {
    var i := offset / CHUNK_LEN;
    if i < |bs| then bs[i := bs[i].(data := block, pending := false)] else bs
  }

  function At(b: Block): (nat, nat) { (b.offset, b.length) }

  /** The requests sent are for blocks that were not pending, and exactly those are now marked. */
  ghost predicate Sent(sent: seq<(nat, nat)>, now: seq<Block>, was: seq<Block>) {
    && |now| == |was|
    && (forall k :: 0 <= k < |was| ==> now[k] == if At(was[k]) in sent then was[k].(pending := true) else was[k])
    && (forall k :: 0 <= k < |was| && At(was[k]) in sent ==> !was[k].pending)
    && (forall t :: t in sent ==> exists k :: 0 <= k < |was| && At(was[k]) == t)
  }

  lemma FirstIsIn(sent: seq<(nat, nat)>)
    ensures sent == [] || exists t :: t in sent
  {
    assert sent != [] ==> sent[0] in sent;
  }

  lemma SentNothing(bs: seq<Block>)
    ensures Sent([], bs, bs)
  {
  }

  lemma SentGrows(sent: seq<(nat, nat)>, now: seq<Block>, was: seq<Block>, length: nat, i: nat)
    requires Shaped(was, length) && Sent(sent, now, was) && i < |now| && !now[i].pending
    ensures Sent(sent + [At(now[i])], now[i := now[i].(pending := true)], was)
  {
    assert At(now[i]) == At(was[i]);
    forall k | 0 <= k < |was| && At(was[k]) == At(was[i]) ensures k == i {
    }
  }

  lemma SentConcat(first: seq<(nat, nat)>, second: seq<(nat, nat)>, now: seq<Block>, mid: seq<Block>, was: seq<Block>)
    requires Sent(first, mid, was) && Sent(second, now, mid)
    ensures Sent(first + second, now, was)
  {
    forall t | t in second ensures exists k :: 0 <= k < |was| && At(was[k]) == t {
      var k :| 0 <= k < |mid| && At(mid[k]) == t;
      assert At(was[k]) == t;
    }
  }

  lemma FreeBlocks(sent: seq<(nat, nat)>, now: seq<Block>, was: seq<Block>, length: nat, i: nat)
    requires Shaped(was, length) && Sent(sent, now, was) && i < |now| && now[i].data == []
    requires forall b :: b in was && At(b) in sent ==> b.data == []
    ensures forall b :: b in was && At(b) in sent + [At(now[i])] ==> b.data == []
  {
    forall b | b in was && At(b) == At(now[i]) ensures b == was[i] {
      assert At(now[i]) == At(was[i]);
    }
  }

  class Reception {
    const store: Storage
    const board: Sharing.ShareBoard
    const request: SingleRequest
    const iip: nat  // the peer's address
    var cooperate: bool

    /** All but the store's own validity. */
    ghost predicate Coupled()
      reads this, board, board.requests.Values, request
    {
      && board.store == store && board.Consistent() && request.Valid()
      && |store.pieceHash| == store.layout.pieceCount
      && (request.index >= 0 ==>
            store.layout.HasPiece(request.index) && request.length == store.layout.PieceLength(request.index))
    }

    ghost predicate Valid()
      reads this, store, board, board.requests.Values, request
    {
      store.Valid() && Coupled()
    }

    constructor (board: Sharing.ShareBoard, iip: nat)
      requires board.Valid()
      ensures Valid() && this.board == board && store == board.store && fresh(request) && request.Empty()
    {
      this.store, this.board, this.iip, cooperate := board.store, board, iip, false;
      request := new SingleRequest();
      new;
      store.ConfiguredFacts();
    }

    /** A piece is taken up: its padding, if any, is known at once. */
    method TakeUp(index: int, coop: bool, padding: Option<(nat, nat)>)
      requires Valid() && request.blocks == [] && store.layout.HasPiece(index)
      modifies request, this`cooperate
      ensures Valid() && request.index == index && cooperate == coop
      ensures padding.None? ==> Blank(request.blocks)
      ensures padding.Some? ==> forall k :: 0 <= k < |request.blocks| ==>
                var b := request.blocks[k];
                b.data == if Inside(b, padding.value.0, padding.value.1) then Zeros(b.length) else []
    {
      hide Storage.Valid;
      request.Init(index, store.layout.PieceLength(index));
      cooperate := coop;
      if padding.Some? {
        request.SetVirtualData(padding.value.0, padding.value.1);
      }
    }

    lemma StoreFacts()
      requires store.Valid()
      ensures |store.pieceHash| == store.layout.pieceCount && store.layout.Valid()
      ensures store.content.Keys == store.finished
    {
      store.ConfiguredFacts();
    }

    /** The piece is complete: check its hash, and hand it over only when it matches. */
    method HandOver() returns (ok: bool)
      requires Valid() && request.index >= 0 && Full(request.blocks)
      modifies store
      ensures Valid()
      ensures ok <==> store.sha1(Assembled(request.blocks)) == store.pieceHash[request.index]
      ensures |Assembled(request.blocks)| == store.layout.PieceLength(request.index)
      ensures HoldsLast(Assembled(request.blocks), request.length, request.stored)
      ensures
        if ok && store.layout.Wanted(request.index) && request.index !in old(store.finished)
        then && store.content == old(store.content)[request.index := Assembled(request.blocks)]
             && store.finished == old(store.finished) + {request.index}
        else store.content == old(store.content) && store.finished == old(store.finished)
    {
      hide Storage.Configured;
      hide Storage.Verified;
      hide Layout.Valid;
      hide Layout.Wanted;
      hide Full;
      hide HoldsLast;
      StoreFacts();
      var data := request.GetPieceData();
      ok := store.sha1(data) == store.pieceHash[request.index];
      if ok {
        store.WritePiece(request.index, data);
      }
    }

    /** These blocks assemble to the piece the torrent means. */
    ghost predicate Verifies(index: int, bs: seq<Block>)
      requires store.layout.HasPiece(index) && |store.pieceHash| == store.layout.pieceCount
    {
      store.sha1(Assembled(bs)) == store.pieceHash[index]
    }

    /** The peer's own list once this block has come in. */
    ghost function MineWith(offset: nat, block: seq<byte>): seq<Block>
      reads request
    {
      WithBlock(request.blocks, offset, block)
    }

    /** The shared blocks of a piece once this block has come in. */
    ghost function SharedWith(index: int, offset: nat, block: seq<byte>): seq<Sharing.Block>
      requires index in board.requests && store.layout.Valid() && store.layout.HasPiece(index)
      reads this, board, board.requests.Values
    {
      Sharing.Put(board.requests[index].blocks, store.layout.PieceLength(index), iip, offset, block)
    }

    /** The block fills one of the piece being fetched. */
    ghost predicate FillsMine(index: int, offset: nat, block: seq<byte>)
      reads store, request
    {
      && store.layout.HasPiece(index) && index !in store.finished && index == request.index
      && IsBlock(request.length, offset, |block|)
    }

    /**
      A block arrives. The store changes only on the outcomes Completed and Cancelled,
      by that one piece with the torrent's hash: on Completed every block range of it is
      what was stored there last, on Cancelled it is what the cooperating peers have put
      together. All stays in agreement, except when shared blocks of wrong sizes have
      the hash but not the length of the piece; when they are sized that cannot be.
    */
    method DoCmdPiece(index: int, offset: nat, block: seq<byte>) returns (outcome: Outcome)
      requires Valid()
      modifies store, request, board, board.requests.Values
      ensures Coupled()
      ensures outcome.Rejected? <==>
        || !store.layout.HasPiece(index)
        || (index !in old(store.finished) && index == old(request.index) && !old(FillsMine(index, offset, block)))
      ensures outcome.Ignored? <==> store.layout.HasPiece(index) && index in old(store.finished)
      ensures outcome.Stray? <==>
        store.layout.HasPiece(index) && index !in old(store.finished) && index != old(request.index)
      ensures outcome.Cancelled? <==>
        && cooperate && old(FillsMine(index, offset, block))
        && (index in old(board.requests) ==>
              var bs := old(SharedWith(index, offset, block));
              Sharing.Full(bs) && store.sha1(Sharing.Assembled(bs)) == store.pieceHash[index])
      // where the own list decides
      ensures
        var mine := old(MineWith(offset, block));
        var decides := old(FillsMine(index, offset, block)) && !outcome.Cancelled?;
        && (outcome.Waiting? <==> decides && !Full(mine))
        && (outcome.Completed? <==> decides && Full(mine) && Verifies(index, mine))
        && (outcome.Dropped? <==> decides && Full(mine) && !Verifies(index, mine) && Marked(mine, iip))
        && (outcome.Failed? <==> decides && Full(mine) && !Verifies(index, mine) && !Marked(mine, iip))
      // what the store has gained
      ensures !outcome.Completed? && !outcome.Cancelled? ==>
                store.finished == old(store.finished) && store.content == old(store.content)
      ensures outcome.Cancelled? ==>
        if index in old(board.requests) && store.layout.Wanted(index)
        then && store.content == old(store.content)[index := Sharing.Assembled(old(SharedWith(index, offset, block)))]
             && store.finished == old(store.finished) + {index}
        else store.content == old(store.content) && store.finished == old(store.finished)
      ensures outcome.Completed? ==>
        var mine := old(MineWith(offset, block));
        && HoldsLast(Assembled(mine), store.layout.PieceLength(index), old(request.stored)[offset := block])
        && if store.layout.Wanted(index)
           then store.content == old(store.content)[index := Assembled(mine)] &&
             store.finished == old(store.finished) + {index}
           else store.content == old(store.content) && store.finished == old(store.finished)
      ensures board.requests == if outcome.Cancelled? then old(board.requests) - {index} else old(board.requests)
      // the agreement of all layers
      ensures Valid() <==>
        !(outcome.Cancelled? && index in old(board.requests) &&
          board.WrongLength(index, old(SharedWith(index, offset, block))))
      ensures (index in old(board.requests) ==> Sharing.Sized(old(board.requests[index].blocks))) ==> Valid()
      // the request
      ensures outcome in {Ignored, Stray, Rejected} ==>
                request.blocks == old(request.blocks) && request.index == old(request.index)
      ensures outcome in {Waiting, Dropped} ==> request.index == index
      ensures outcome.Waiting? ==>
                request.blocks == old(MineWith(offset, block)) && request.stored == old(request.stored)[offset := block]
      ensures outcome.Dropped? ==>
                Mapped(request.blocks, old(MineWith(offset, block)), (b: Block) => Purged(b, iip))
      ensures outcome in {Completed, Failed, Cancelled} ==> request.Empty()
    {
      hide Storage.Valid;
      hide SingleRequest.Valid;
      hide Sharing.ShareBoard.Consistent;
      hide Sharing.Put;
      hide Sharing.Full;
      hide Sharing.Sized;
      hide Sharing.Assembled;
      hide Full;
      hide HoldsLast;
      hide Assembled;
      hide IsBlock;
      hide Layout.Wanted;
      hide Layout.Valid;
      hide Reception.Verifies;
      hide Marked;
      hide Mapped;
      StoreFacts();
      if index < 0 || index >= store.layout.pieceCount {
        return Rejected;
      }
      if index in store.finished {
        return Ignored;
      }
      if index != request.index {
        return Stray;
      }
      RequestSize();
      var ok := request.SetData(offset, block);
      if !ok {
        return Rejected;
      }
      if index in board.requests {
        SharedSized(index, offset, block);
      }
      if cooperate {
        var more := board.SubmitShareData(iip, index, offset, block);
        if !more {
          request.Reset();
          return Cancelled;
        }
      }
      outcome := CheckPiece(index);
    }

    lemma RequestSize()
      requires request.index >= 0
      ensures request.Size() == request.length
    {
    }

    /** The block has the size its place in the shared list asks for. */
    lemma SharedSized(index: int, offset: nat, block: seq<byte>)
      requires board.Consistent() && index in board.requests
      requires |store.pieceHash| == store.layout.pieceCount && board.store == store
      requires IsBlock(store.layout.PieceLength(index), offset, |block|)
      ensures Sharing.Sized(board.requests[index].blocks) ==>
                && Sharing.Sized(SharedWith(index, offset, block))
                && !board.WrongLength(index, SharedWith(index, offset, block))
    {
      var length := store.layout.PieceLength(index);
      Sharing.PutKeepsShape(board.requests[index].blocks, length, iip, offset, block);
      if Sharing.Sized(board.requests[index].blocks) {
        Sharing.PutKeepsSized(board.requests[index].blocks, length, iip, offset, block);
        board.SizedIsRight(index, SharedWith(index, offset, block));
      }
    }

    /**
      After a block has been stored: is the piece complete, and does its hash match? If it
      does not, a block marked with this peer's address is what saves the connection.
    */
    method CheckPiece(index: int) returns (outcome: Outcome)
      requires Valid() && index == request.index >= 0 && index !in store.finished
      modifies store, request
      ensures Valid()
      ensures outcome.Waiting? <==> old(!Full(request.blocks))
      ensures outcome.Completed? <==> old(Full(request.blocks) && Verifies(index, request.blocks))
      ensures outcome.Dropped? <==>
        old(Full(request.blocks) && !Verifies(index, request.blocks) && Marked(request.blocks, iip))
      ensures outcome.Failed? <==>
        old(Full(request.blocks) && !Verifies(index, request.blocks) && !Marked(request.blocks, iip))
      ensures !outcome.Completed? ==> store.finished == old(store.finished) && store.content == old(store.content)
      ensures outcome.Completed? ==>
        && HoldsLast(old(Assembled(request.blocks)), store.layout.PieceLength(index), old(request.stored))
        && if store.layout.Wanted(index)
           then && store.content == old(store.content)[index := old(Assembled(request.blocks))]
                && store.finished == old(store.finished) + {index}
           else store.content == old(store.content) && store.finished == old(store.finished)
      ensures outcome.Waiting? ==> request.blocks == old(request.blocks) && request.stored == old(request.stored)
      ensures outcome.Dropped? ==> Mapped(request.blocks, old(request.blocks), (b: Block) => Purged(b, iip))
      ensures outcome in {Waiting, Dropped} ==> request.index == index
      ensures outcome in {Completed, Failed} ==> request.Empty()
    {
      hide Storage.Valid;
      hide SingleRequest.Valid;
      hide Sharing.ShareBoard.Consistent;
      hide Full;
      hide HoldsLast;
      hide Assembled;
      hide Layout.Wanted;
      hide Layout.Valid;
      hide Mapped;
      StoreFacts();
      var done := request.IsFinish();
      if !done {
        return Waiting;
      }
      var good := HandOver();
      if good {
        request.Reset();
        return Completed;
      }
      var alien := request.HaveAlien(iip);
      if alien {
        request.ClearAlien(iip);
        return Dropped;
      }
      request.Reset();
      return Failed;
    }

    /**
      Orphans left for the piece are put in; when they complete it the store takes it at
      once. If the hash fails, all that is not marked with this peer's address is dropped.
    */
    method CheckOutOrphanData(orphans: seq<Orphan>) returns (done: bool)
      requires Valid() && !request.Empty()
      modifies store, request
      ensures Valid()
      ensures
        var index, now := old(request.index), PutOrphans(old(request.blocks), old(request.length), orphans);
        && (done <==> Full(now) && Verifies(index, now))
        && (Full(now) <==> |Assembled(now)| == store.layout.PieceLength(index))
        && (if done then request.Empty()
            else && request.index == index && request.length == old(request.length)
                 && request.nPending == old(request.nPending)
                 && if !Full(now) then request.blocks == now
                    else Mapped(request.blocks, now, (b: Block) => Purged(b, iip)))
        && if done && store.layout.Wanted(index) && index !in old(store.finished)
           then store.content == old(store.content)[index := Assembled(now)] &&
             store.finished == old(store.finished) + {index}
           else store.content == old(store.content) && store.finished == old(store.finished)
    {
      hide Storage.Valid;
      hide SingleRequest.Valid;
      hide Sharing.ShareBoard.Consistent;
      hide Full;
      hide HoldsLast;
      hide Assembled;
      hide Mapped;
      hide PutOrphans;
      hide Layout.Wanted;
      hide Layout.Valid;
      request.TakeOrphans(orphans);
      FullIffLong();
      var full := request.IsFinish();
      if !full {
        return false;
      }
      var good := HandOver();
      if good {
        request.Reset();
        return true;
      }
      request.ClearAlien(iip);
      return false;
    }

    lemma RequestFacts()
      requires request.Valid()
      ensures Shaped(request.blocks, request.Size())
      ensures request.nPending >= 0 && (request.nPending == 0 <==> forall b :: b in request.blocks ==> !b.pending)
    {
      NonePending(request.blocks);
    }

    /** Blocks asked for on a piece fetched alone: as many as are free, up to the limit. */
    method AskAlone() returns (sent: seq<(nat, nat)>)
      requires Valid()
      modifies request`blocks, request`nPending
      ensures Valid() && request.nPending == old(request.nPending) + |sent|
      ensures request.nPending >= 12 || NoneFree(request.blocks)
      ensures request.nPending <= Max(12, old(request.nPending))
      ensures Sent(sent, request.blocks, old(request.blocks))
      ensures forall b :: b in old(request.blocks) && At(b) in sent ==> b.data == []
    {
      hide Storage.Valid;
      hide SingleRequest.Valid;
      hide Sharing.ShareBoard.Consistent;
      hide Shaped;
      hide Sent;
      sent := [];
      RequestFacts();
      ghost var was := request.blocks;
      SentNothing(was);
      while request.nPending < PENDING_REQUEST_SIZE
        invariant Valid() && request.nPending == old(request.nPending) + |sent| <= Max(12, old(request.nPending))
        invariant Sent(sent, request.blocks, was)
        invariant forall b :: b in was && At(b) in sent ==> b.data == []
        decreases PENDING_REQUEST_SIZE - request.nPending
      {
        ghost var now := request.blocks;
        var task := request.GetTask();
        if task.None? {
          break;
        }
        ghost var i: nat :| FirstFree(now, i) && task.value == At(now[i]) &&
          request.blocks == now[i := now[i].(pending := true)];
        SentGrows(sent, now, was, request.Size(), i);
        FreeBlocks(sent, now, was, request.Size(), i);
        sent := sent + [task.value];
      }
    }

    /**
      Blocks asked for on a shared piece, as the board hands them out. Opening the
      shared request may put the piece into the store at once. A block that this peer is
      asked for already means that the board has no others for it, and the rest is
      filled from the peer's own list: those blocks the board has not counted. With
      nothing to ask for the connection closes.
    */
    method AskShared(padding: Option<(nat, nat)>, orphans: seq<Orphan>) returns (sent: seq<(nat, nat)>, closed: bool)
      requires Valid() && !request.Empty()
      modifies store, board, board.requests.Values, request`blocks, request`nPending
      ensures Coupled() && (closed <==> request.nPending == 0)
      ensures request.nPending == old(request.nPending) + |sent| <= Max(12, old(request.nPending))
      ensures Sent(sent, request.blocks, old(request.blocks))
      ensures
        var index := request.index;
        var asks := old(request.nPending) < 12;
        var opens := asks && index !in old(store.finished) && index !in old(board.requests);
        var bs := Sharing.Started(store.layout.PieceLength(index), padding, orphans);
        && (Valid() <==> !(opens && board.WrongLength(index, bs)))
        && if opens && board.Accepts(index, bs)
           then store.content == old(store.content)[index := Sharing.Assembled(bs)] &&
             store.finished == old(store.finished) + {index}
           else store.content == old(store.content) && store.finished == old(store.finished)
    {
      hide Storage.Valid;
      hide SingleRequest.Valid;
      hide Sharing.ShareBoard.Consistent;
      hide Sharing.ShareBoard.Accepts;
      hide Sharing.ShareBoard.WrongLength;
      hide Sharing.Started;
      hide Sharing.Assembled;
      hide Layout.Wanted;
      hide Layout.Valid;
      hide Layout.PieceLength;
      hide Storage.Configured;
      hide NoneFree;
      hide Shaped;
      hide Sent;
      StoreFacts();
      RequestFacts();
      sent, closed := [], false;
      ghost var index, was := request.index, request.blocks;
      ghost var bs := Sharing.Started(store.layout.PieceLength(index), padding, orphans);
      NotFullNotWrong(index, bs);
      SentNothing(was);
      while request.nPending < PENDING_REQUEST_SIZE
        invariant Valid() && request.nPending == old(request.nPending) + |sent| <= Max(12, old(request.nPending))
        invariant request.index == index
        invariant Sent(sent, request.blocks, was)
        invariant store.content == old(store.content) && store.finished == old(store.finished)
        invariant sent == [] ==> board.requests == old(board.requests)
        invariant sent != [] ==> index in board.requests
        invariant forall r <- board.requests.Values :: r in old(board.requests.Values) || fresh(r)
        invariant sent != [] && index !in old(board.requests) ==> !board.Accepts(index, bs)
        decreases PENDING_REQUEST_SIZE - request.nPending
      {
        var task := NextShared(padding, orphans);
        if task.None? {
          closed := request.nPending == 0;
          return;
        }
        ghost var mid := request.blocks;
        var one := MarkShared(task.value);
        SentConcat(sent, one, request.blocks, mid, was);
        sent := sent + one;
        if one == [] {
          mid := request.blocks;
          var mine := AskAlone();
          SentConcat(sent, mine, request.blocks, mid, was);
          sent := sent + mine;
          return;
        }
      }
    }

    /** What the board hands out next for this peer's piece. */
    method NextShared(padding: Option<(nat, nat)>, orphans: seq<Orphan>) returns (task: Option<(nat, nat)>)
      requires Valid() && !request.Empty()
      modifies store, board, board.requests.Values
      ensures Coupled()
      ensures forall r <- board.requests.Values :: r in old(board.requests.Values) || fresh(r)
      ensures task.Some? ==>
        && request.index in board.requests && request.index !in store.finished
        && IsBlock(request.Size(), task.value.0, task.value.1)
      ensures
        var index := request.index;
        var opens := index !in old(store.finished) && index !in old(board.requests);
        var bs := Sharing.Started(store.layout.PieceLength(index), padding, orphans);
        && (Valid() <==> !(opens && board.WrongLength(index, bs)))
        && (opens && board.Accepts(index, bs) ==> task.None?)
        && if opens && board.Accepts(index, bs)
           then store.content == old(store.content)[index := Sharing.Assembled(bs)] &&
             store.finished == old(store.finished) + {index}
           else store.content == old(store.content) && store.finished == old(store.finished)
    {
      hide Storage.Valid;
      hide SingleRequest.Valid;
      hide Sharing.ShareBoard.Consistent;
      hide Sharing.ShareBoard.Accepts;
      hide Sharing.ShareBoard.WrongLength;
      hide Sharing.Started;
      hide Sharing.Opened;
      hide Sharing.Handed;
      hide Sharing.Full;
      hide Sharing.Assembled;
      hide Layout.Wanted;
      hide Layout.Valid;
      hide Layout.PieceLength;
      hide IsBlock;
      hide Storage.Configured;
      StoreFacts();
      NotFullNotWrong(request.index, Sharing.Started(store.layout.PieceLength(request.index), padding, orphans));
      task := board.GetShareTask(request.index, padding, orphans);
    }

    /** One block of the board is marked, unless this peer is asked for it already. */
    method MarkShared(task: (nat, nat)) returns (sent: seq<(nat, nat)>)
      requires Valid() && IsBlock(request.Size(), task.0, task.1)
      modifies request`blocks, request`nPending
      ensures Valid() && request.nPending == old(request.nPending) + |sent|
      ensures Sent(sent, request.blocks, old(request.blocks)) && sent <= [task]
      ensures sent == [] ==> request.nPending > 0
    {
      hide Storage.Valid;
      hide SingleRequest.Valid;
      hide Sharing.ShareBoard.Consistent;
      hide Shaped;
      hide Sent;
      ghost var was := request.blocks;
      RequestFacts();
      SentNothing(was);
      BlockFound(was, request.Size(), task.0, task.1);
      var pending := request.IsPendingRequest(task.0);
      if pending {
        return [];
      }
      SentGrows([], was, was, request.Size(), task.0 / CHUNK_LEN);
      var marked := request.MarkPendingRequest(task.0);
      if !marked {
        assert false;  // the code would give up here
      }
      assert [] + [task] == [task];
      return [task];
    }

    lemma NotFullNotWrong(index: int, bs: seq<Sharing.Block>)
      requires store.layout.Valid() && store.layout.HasPiece(index)
      requires |store.pieceHash| == store.layout.pieceCount && board.store == store
      ensures board.WrongLength(index, bs) ==> board.Accepts(index, bs)
      ensures board.Accepts(index, bs) ==>
                Sharing.Full(bs) && store.sha1(Sharing.Assembled(bs)) == store.pieceHash[index]
    {
    }

    lemma FullIffLong()
      requires request.Valid() && request.index >= 0
      ensures Full(request.blocks) <==> |Assembled(request.blocks)| == request.length
    {
      AssembledHolds(request.blocks, request.length, request.stored);
    }
  }
  // ------------------------------------------------ two runs that the test gets wrong

  /** Data for a block fills and marks it, and no other. */
  lemma PutAlienStep(bs: seq<Block>, length: nat, iip: nat, offset: nat, data: seq<byte>, i: nat)
    requires Shaped(bs, length) && i < |bs|
    ensures
      var now := PutAlien(bs, length, iip, offset, data);
      && |now| == |bs|
      && now[i] == if (offset, |data|) == At(bs[i]) then bs[i].(data := data, source := iip) else bs[i]
  {
    BlockFound(bs, length, offset, |data|);
  }

  lemma PutAlienShaped(bs: seq<Block>, length: nat, iip: nat, offset: nat, data: seq<byte>)
    requires Shaped(bs, length)
    ensures Shaped(PutAlien(bs, length, iip, offset, data), length)
    ensures |PutAlien(bs, length, iip, offset, data)| == |bs|
  {
  }

  lemma {:induction false} PutOrphansShaped(bs: seq<Block>, length: nat, orphans: seq<Orphan>)
    requires Shaped(bs, length)
    ensures
      var now := PutOrphans(bs, length, orphans);
      && Shaped(now, length) && |now| == |bs|
      && forall i :: 0 <= i < |bs| ==> At(now[i]) == At(bs[i])
  {
    hide Shaped;
    hide PutAlien;
    if orphans != [] {
      var before, o := PutOrphans(bs, length, orphans[..|orphans| - 1]), orphans[|orphans| - 1];
      PutOrphansShaped(bs, length, orphans[..|orphans| - 1]);
      PutAlienShaped(before, length, o.source, o.offset, o.data);
      forall i: nat | i < |bs|
        ensures
          var now := PutAlien(before, length, o.source, o.offset, o.data);
          |now| == |before| && At(now[i]) == At(before[i])
      {
        PutAlienStep(before, length, o.source, o.offset, o.data, i);
      }
    }
  }

  /** The list of a piece just taken up. */
  ghost function Anew(length: nat): seq<Block> {
    seq((length + CHUNK_LEN - 1) / CHUNK_LEN,
        k requires 0 <= k => Block(k * CHUNK_LEN, Max(0, Min(CHUNK_LEN, length - k * CHUNK_LEN)), 0, false, []))
  }

  lemma BlankIsAnew(bs: seq<Block>, length: nat)
    requires Shaped(bs, length) && Blank(bs)
    ensures bs == Anew(length)
  {
  }

  /** What has come in unasked for a piece, before anything is asked for. */
  ghost function Gathered(length: nat, orphans: seq<Orphan>): seq<Block> {
    PutOrphans(Anew(length), length, orphans)
  }

  /** For every block there is data from somebody of the block's size. */
  ghost predicate Covered(length: nat, orphans: seq<Orphan>) {
    forall offset: nat, size: nat :: IsBlock(length, offset, size) ==>
      exists o :: o in orphans && o.offset == offset && |o.data| == size
  }

  /** A block for which something came in unasked, all from one address, is full and marked with it. */
  lemma {:induction false} OwnOrphanFills(bs: seq<Block>, length: nat, orphans: seq<Orphan>, iip: nat, i: nat)
    requires Shaped(bs, length) && i < |bs| && forall o :: o in orphans ==> o.source == iip
    requires exists o :: o in orphans && (o.offset, |o.data|) == At(bs[i])
    ensures
      var now := PutOrphans(bs, length, orphans);
      |now| == |bs| && now[i].data != [] && now[i].source == iip
  {
    hide Shaped;
    hide PutAlien;
    var n := |orphans| - 1;
    var before, o := PutOrphans(bs, length, orphans[..n]), orphans[n];
    PutOrphansShaped(bs, length, orphans[..n]);
    PutAlienStep(before, length, o.source, o.offset, o.data, i);
    SolidBlock(bs, length, i);
    if (o.offset, |o.data|) != At(bs[i]) {
      OwnOrphanFills(bs, length, orphans[..n], iip, i);
    }
  }

  lemma SolidBlock(bs: seq<Block>, length: nat, i: nat)
    requires Shaped(bs, length) && i < |bs|
    ensures bs[i].length > 0 && IsBlock(length, bs[i].offset, bs[i].length)
  {
  }

  lemma OwnOrphansFill(bs: seq<Block>, length: nat, orphans: seq<Orphan>, iip: nat)
    requires Shaped(bs, length) && Covered(length, orphans) && forall o :: o in orphans ==> o.source == iip
    ensures
      var now := PutOrphans(bs, length, orphans);
      Full(now) && forall b :: b in now ==> b.source == iip
  {
    hide Shaped;
    hide PutOrphans;
    PutOrphansShaped(bs, length, orphans);
    forall i: nat | i < |bs|
      ensures PutOrphans(bs, length, orphans)[i].data != [] && PutOrphans(bs, length, orphans)[i].source == iip
    {
      SolidBlock(bs, length, i);
      OwnOrphanFills(bs, length, orphans, iip, i);
    }
  }

  /** Orphans from other addresses only: none is marked with this one. */
  lemma {:induction false} ForeignUnmarked(length: nat, orphans: seq<Orphan>, iip: nat)
    requires iip != 0 && forall o :: o in orphans ==> o.source != iip
    ensures |Gathered(length, orphans)| == |Anew(length)|
    ensures forall i :: 0 <= i < |Anew(length)| ==> Gathered(length, orphans)[i].source != iip
  {
    if orphans != [] {
      ForeignUnmarked(length, orphans[..|orphans| - 1], iip);
    }
  }

  /**
    A run that gets stuck: a peer has sent a whole piece unasked, with an error in it,
    and now takes the piece up. The purge after the failed hash drops nothing, and there
    is no block left to ask for.
  */
  method StuckOnOwnOrphans(r: Reception, index: int, orphans: seq<Orphan>) returns (sent: seq<(nat, nat)>)
    requires r.Valid() && r.request.blocks == [] && r.store.layout.HasPiece(index) && r.store.layout.Valid()
    requires forall o :: o in orphans ==> o.source == r.iip
    requires Covered(r.store.layout.PieceLength(index), orphans)
    requires !r.Verifies(index, Gathered(r.store.layout.PieceLength(index), orphans))
    modifies r.request, r`cooperate, r.store
    ensures r.request.index == index && Full(r.request.blocks) && r.request.nPending == 0
    ensures r.request.blocks == Gathered(r.store.layout.PieceLength(index), orphans)
    ensures sent == []
  {
    hide Storage.Valid;
    hide Sharing.ShareBoard.Consistent;
    hide Layout.Valid;
    hide Layout.PieceLength;
    hide PutOrphans;
    hide Covered;
    hide Anew;
    hide Shaped;
    r.StoreFacts();
    r.TakeUp(index, false, None);
    r.RequestFacts();
    BlankIsAnew(r.request.blocks, r.request.length);
    OwnOrphansFill(r.request.blocks, r.request.length, orphans, r.iip);
    ghost var now := Gathered(r.request.length, orphans);
    var done := r.CheckOutOrphanData(orphans);
    PurgeProgressIff(now, r.request.blocks, r.iip);
    sent := r.AskAlone();
    FirstIsIn(sent);
  }

  /**
    A run that blames the wrong peer: all but one block of its piece come from peers
    with other addresses, and some of that is bad. It sends the last block, and whatever
    that is, the piece is taken from it and its connection closed.
  */
  method BlamedForOrphans(r: Reception, index: int, orphans: seq<Orphan>, offset: nat, block: seq<byte>)
    returns (outcome: Outcome)
    requires r.Valid() && r.request.blocks == [] && r.store.layout.HasPiece(index) && r.store.layout.Valid()
    requires index !in r.store.finished && r.iip != 0 && forall o :: o in orphans ==> o.source != r.iip
    requires IsBlock(r.store.layout.PieceLength(index), offset, |block|)
    requires
      var before := Gathered(r.store.layout.PieceLength(index), orphans);
      !Full(before) && Full(WithBlock(before, offset, block)) && !r.Verifies(index, WithBlock(before, offset, block))
    modifies r.request, r`cooperate, r.store, r.board, r.board.requests.Values
    ensures outcome.Failed? && r.request.Empty()
  {
    hide Storage.Valid;
    hide Sharing.ShareBoard.Consistent;
    hide Layout.Valid;
    hide Layout.PieceLength;
    hide PutOrphans;
    hide Anew;
    hide Shaped;
    hide IsBlock;
    r.StoreFacts();
    r.TakeUp(index, false, None);
    r.RequestFacts();
    BlankIsAnew(r.request.blocks, r.request.length);
    ghost var length, before := r.request.length, Gathered(r.request.length, orphans);
    var done := r.CheckOutOrphanData(orphans);
    ForeignUnmarked(length, orphans, r.iip);
    outcome := r.DoCmdPiece(index, offset, block);
  }
}
