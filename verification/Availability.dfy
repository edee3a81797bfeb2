/**
  How many connected peers have each piece: the counters that the messages of
  all peers keep up to date.
*/
module Availability {
  import opened Common

  /** What is known of one peer: whether its link is up, and the pieces it said it has. */
  datatype Peer = Peer(linked: bool, gotBitSet: bool, bits: set<nat>)

  type Peers = map<int, Peer>

  /** A peer whose pieces are to be counted. */
  predicate Announces(p: Peer, i: nat) { p.linked && p.gotBitSet && i in p.bits }

  /** The connected peers that have piece i. */
  ghost function Having(peers: Peers, i: nat): set<int> {
    set k | k in peers && Announces(peers[k], i)
  }

  ghost predicate Exact(sum: seq<nat>, peers: Peers) {
    forall i :: 0 <= i < |sum| ==> sum[i] == |Having(peers, i)|
  }

  /** Replacing one peer changes a count by whether it announced the piece before and does now. */
  lemma HavingChanges(peers: Peers, k: int, p: Peer, i: nat)
    requires k in peers
    ensures |Having(peers[k := p], i)|
         == |Having(peers, i)| + (if Announces(p, i) then 1 else 0) - (if Announces(peers[k], i) then 1 else 0)
  {
    var others := Having(peers, i) - {k};
    assert Having(peers, i) == if Announces(peers[k], i) then others + {k} else others;
    assert Having(peers[k := p], i) == if Announces(p, i) then others + {k} else others;
  }

  /** A new link, about which nothing is known yet, has no piece. */
  lemma HavingJoins(peers: Peers, k: int, p: Peer, i: nat)
    requires k !in peers && !p.gotBitSet
    ensures Having(peers[k := p], i) == Having(peers, i)
  {
  }

  ghost function Added(sum: seq<nat>, bits: set<nat>): (s: seq<nat>)
    ensures |s| == |sum|
  {
    seq(|sum|, i requires 0 <= i < |sum| => sum[i] + if i in bits then 1 else 0)
  }

  /** Counters do not go below zero. */
  ghost function Removed(sum: seq<nat>, bits: set<nat>): (s: seq<nat>)
    ensures |s| == |sum|
  {
    seq(|sum|, i requires 0 <= i < |sum| => if i in bits && sum[i] > 0 then sum[i] - 1 else sum[i])
  }

  class PieceSum {
    const size: nat
    var data: seq<nat>

    ghost predicate Valid()
      reads this
    {
      |data| == size
    }

    constructor (size: nat)
      ensures Valid() && this.size == size && forall i :: 0 <= i < size ==> data[i] == 0
    {
      this.size := size;
      data := seq(size, _ => 0);
    }

    method Add(bits: set<nat>)
      requires Valid()
      modifies this
      ensures Valid() && data == Added(old(data), bits)
    {
      for i := 0 to size
        invariant |data| == size
        invariant forall k :: 0 <= k < size ==> data[k] == if k < i then Added(old(data), bits)[k] else old(data)[k]
      {
        if i in bits {
          data := data[i := data[i] + 1];
        }
      }
    }

    method Subtract(bits: set<nat>)
      requires Valid()
      modifies this
      ensures Valid() && data == Removed(old(data), bits)
    {
      for i := 0 to size
        invariant |data| == size
        invariant forall k :: 0 <= k < size ==> data[k] == if k < i then Removed(old(data), bits)[k] else old(data)[k]
      {
        if i in bits {
          if data[i] > 0 {
            data := data[i := data[i] - 1];
          }
        }
      }
    }

    method NewPiece(i: nat)
      requires Valid() && i < size
      modifies this
      ensures Valid() && data == Added(old(data), {i})
    {
      data := data[i := data[i] + 1];
      assert data == Added(old(data), {i});
    }
  }

  // ------------------------------------------------- what the updates mean for a peer

  /** A linked peer's set is taken back and another counted. */
  lemma ReplacedStaysExact(sum: seq<nat>, peers: Peers, k: int, now: Peer)
    requires Exact(sum, peers) && k in peers && peers[k].linked && now.linked && now.gotBitSet
    ensures
      var p := peers[k];
      Exact(Added(if p.gotBitSet then Removed(sum, p.bits) else sum, now.bits), peers[k := now])
  {
    var p := peers[k];
    var after := Added(if p.gotBitSet then Removed(sum, p.bits) else sum, now.bits);
    forall i | 0 <= i < |after| ensures after[i] == |Having(peers[k := now], i)| {
      HavingChanges(peers, k, now, i);
      if Announces(p, i) {
        assert k in Having(peers, i);
      }
    }
  }

  lemma ClosedStaysExact(sum: seq<nat>, peers: Peers, k: int)
    requires Exact(sum, peers) && k in peers && peers[k].linked
    ensures
      var p := peers[k];
      Exact(if p.gotBitSet then Removed(sum, p.bits) else sum, peers[k := p.(linked := false)])
  {
    var p := peers[k];
    var after := if p.gotBitSet then Removed(sum, p.bits) else sum;
    forall i | 0 <= i < |after| ensures after[i] == |Having(peers[k := p.(linked := false)], i)| {
      HavingChanges(peers, k, p.(linked := false), i);
      if Announces(p, i) {
        assert k in Having(peers, i);
      }
    }
  }

  lemma NewPieceStaysExact(sum: seq<nat>, peers: Peers, k: int, i: nat)
    requires Exact(sum, peers) && k in peers && peers[k].linked && peers[k].gotBitSet
    requires i !in peers[k].bits && i < |sum|
    ensures Exact(Added(sum, {i}), peers[k := peers[k].(bits := peers[k].bits + {i})])
  {
    var now := peers[k].(bits := peers[k].bits + {i});
    forall j | 0 <= j < |sum| ensures Added(sum, {i})[j] == |Having(peers[k := now], j)| {
      HavingChanges(peers, k, now, j);
    }
  }

  /** Nothing about an unlinked peer is counted. */
  lemma UnlinkedDoesNotCount(sum: seq<nat>, peers: Peers, k: int, now: Peer)
    requires k in peers && !peers[k].linked && !now.linked
    ensures Exact(sum, peers) <==> Exact(sum, peers[k := now])
  {
    forall i: nat ensures Having(peers[k := now], i) == Having(peers, i) {
    }
  }

  /**
    A set that is taken back and replaced for a link already closed leaves the
    counters exact only when the new set is what others still have of the old one.
  */
  lemma LateReplacementIff(sum: seq<nat>, before: set<nat>, now: set<nat>)
    ensures Added(Removed(sum, before), now) == sum <==>
            forall i: nat :: i < |sum| ==> (i in now <==> i in before && sum[i] > 0)
  {
    var after := Added(Removed(sum, before), now);
    forall i: nat | i < |sum| ensures after[i] == sum[i] <==> (i in now <==> i in before && sum[i] > 0) {
    }
    if after == sum {
      forall i: nat | i < |sum| ensures i in now <==> i in before && sum[i] > 0 {
        assert after[i] == sum[i];
      }
    }
  }

  /** Turned away before its set was counted: closing takes the set back all the same. */
  lemma TurnedAwayIff(sum: seq<nat>, bits: set<nat>)
    ensures Removed(sum, bits) == sum <==> forall i: nat :: i < |sum| && i in bits ==> sum[i] == 0
  {
    var after := Removed(sum, bits);
    forall i: nat | i < |sum| ensures after[i] == sum[i] <==> (i in bits ==> sum[i] == 0) {
    }
    if after == sum {
      forall i: nat | i < |sum| && i in bits ensures sum[i] == 0 {
        assert after[i] == sum[i];
      }
    }
  }

  /** Nobody has a piece of those this peer was known to have, so that none of them can be taken back. */
  ghost predicate TakesNothing(p: Peer, sum: seq<nat>) {
    p.gotBitSet ==> forall i: nat :: i < |sum| && i in p.bits ==> sum[i] == 0
  }

  /** Exact counters for the same links are the same counters. */
  lemma ExactUnique(a: seq<nat>, b: seq<nat>, peers: Peers)
    requires Exact(a, peers) && |a| == |b|
    ensures Exact(b, peers) <==> a == b
  {
    if Exact(b, peers) {
      forall i | 0 <= i < |a| ensures a[i] == b[i] {
        assert a[i] == |Having(peers, i)|;
      }
    }
  }

  /** When every link is down nothing is available. */
  lemma AllDownAllZero(sum: seq<nat>, peers: Peers)
    requires Exact(sum, peers) && forall k :: k in peers ==> !peers[k].linked
    ensures forall i :: 0 <= i < |sum| ==> sum[i] == 0
  {
    forall i | 0 <= i < |sum| ensures sum[i] == 0 {
      assert forall k :: k !in Having(peers, i);
      assert Having(peers, i) == {};
    }
  }

  /** A torrent with its peers. Messages left in a buffer are handled even after their link has closed. */
  class Torrent {
    const sum: PieceSum
    var peers: Peers

    ghost predicate Valid()
      reads this, sum
    {
      sum.Valid()
    }

    /** Each counter is the number of connected peers that have the piece. */
    ghost predicate Counted()
      reads this, sum
    {
      Exact(sum.data, peers)
    }

    constructor (pieceCount: nat)
      ensures Valid() && Counted() && peers == map[] && sum.size == pieceCount && fresh(sum)
    {
      sum := new PieceSum(pieceCount);
      peers := map[];
      new;
      assert forall i :: Having(map[], i) == {};
    }

    method Connect(k: int)
      requires Valid() && Counted() && k !in peers
      modifies this
      ensures Valid() && Counted() && peers == old(peers)[k := Peer(true, false, {})]
    {
      ghost var p := Peer(true, false, {});
      forall i: nat ensures Having(peers[k := p], i) == Having(peers, i) {
        HavingJoins(peers, k, p, i);
      }
      peers := peers[k := Peer(true, false, {})];
    }

    method OnClose(k: int)
      requires Valid() && k in peers
      modifies this, sum
      ensures Valid()
      ensures peers == old(peers)[k := old(peers)[k].(linked := false)]
      ensures var p := old(peers)[k];
              sum.data == if p.linked && p.gotBitSet then Removed(old(sum.data), p.bits) else old(sum.data)
      ensures old(Counted()) ==> Counted()
    {
      if Exact(sum.data, peers) && peers[k].linked {
        ClosedStaysExact(sum.data, peers, k);
      }
      var p := peers[k];
      if p.linked {
        if p.gotBitSet {
          sum.Subtract(p.bits);
        }
        peers := peers[k := p.(linked := false)];
      }
      assert !p.linked ==> peers == old(peers)[k := p.(linked := false)];
    }

    /** One more piece. After the link has closed it is counted for nobody, unless it was known already. */
    method DoCmdHave(k: int, i: int)
      requires Valid() && Counted() && k in peers
      modifies this, sum
      ensures Valid()
      ensures old(peers)[k].linked ==> Counted()
      ensures !old(peers)[k].linked ==>
        (Counted() <==> !(0 <= i < sum.size) || (old(peers)[k].gotBitSet && i in old(peers)[k].bits))
      ensures !(0 <= i < sum.size) ==> peers == old(peers)[k := old(peers)[k].(linked := false)]
      ensures 0 <= i < sum.size ==>
        var p := old(peers)[k];
        peers == old(peers)[k := p.(gotBitSet := true, bits := (if p.gotBitSet then p.bits else {}) + {i})]
    {
      if i < 0 || i >= sum.size {
        OnClose(k);
        return;
      }
      var p := peers[k];
      ghost var was := sum.data;
      if p.gotBitSet && i in p.bits {
        assert p == p.(gotBitSet := true, bits := p.bits + {i});
        assert peers == peers[k := p];
        return;
      }
      assert {} + {i} == {i};
      if !p.gotBitSet {
        peers := peers[k := p.(gotBitSet := true, bits := {i})];
        sum.Add({i});
      } else {
        peers := peers[k := p.(bits := p.bits + {i})];
        sum.NewPiece(i);
      }
      if p.linked {
        if p.gotBitSet {
          NewPieceStaysExact(was, old(peers), k, i);
        } else {
          ReplacedStaysExact(was, old(peers), k, p.(gotBitSet := true, bits := {i}));
        }
      } else {
        UnlinkedDoesNotCount(was, old(peers), k, peers[k]);
        ExactUnique(was, sum.data, peers);
        assert sum.data[i] != was[i];
      }
    }

    /** A new set replaces what was known, on a link that is up or not. */
    method Replace(k: int, bits: set<nat>)
      requires Valid() && Counted() && k in peers
      modifies this, sum
      ensures Valid()
      ensures peers == old(peers)[k := old(peers)[k].(gotBitSet := true, bits := bits)]
      ensures old(peers)[k].linked ==> Counted()
      ensures !old(peers)[k].linked ==>
        var p := old(peers)[k];
        (Counted() <==> forall i: nat :: i < sum.size ==>
                          (i in bits <==> p.gotBitSet && i in p.bits && old(sum.data)[i] > 0))
    {
      var p := peers[k];
      ghost var was := sum.data;
      ghost var known := if p.gotBitSet then p.bits else {};
      assert Removed(was, {}) == was;
      if p.gotBitSet {
        sum.Subtract(p.bits);
      }
      peers := peers[k := p.(gotBitSet := true, bits := bits)];
      sum.Add(bits);
      if p.linked {
        ReplacedStaysExact(was, old(peers), k, peers[k]);
      } else {
        UnlinkedDoesNotCount(was, old(peers), k, peers[k]);
        ExactUnique(was, sum.data, peers);
        LateReplacementIff(was, known, bits);
      }
    }

    /** A bitfield; None stands for one of the wrong length, which closes the link. */
    method DoCmdBitfield(k: int, bits: Option<set<nat>>)
      requires Valid() && Counted() && k in peers
      modifies this, sum
      ensures Valid()
      ensures old(peers)[k].linked || bits.None? ==> Counted()
      ensures !old(peers)[k].linked && bits.Some? ==>
        var p := old(peers)[k];
        (Counted() <==> forall i: nat :: i < sum.size ==>
                          (i in bits.value <==> p.gotBitSet && i in p.bits && old(sum.data)[i] > 0))
      ensures peers == old(peers)[k := if bits.None? then old(peers)[k].(linked := false)
                                       else old(peers)[k].(gotBitSet := true, bits := bits.value)]
    {
      if bits.None? {
        OnClose(k);
        return;
      }
      Replace(k, bits.value);
    }

    /**
      While uploading, a peer may be turned away after its set was noted but before it
      was counted. Closing takes the set back all the same, unless the link was closed
      already.
    */
    method TurnAwayBitfield(k: int, bits: set<nat>)
      requires Valid() && Counted() && k in peers
      modifies this, sum
      ensures Valid()
      ensures peers == old(peers)[k := Peer(false, true, bits)]
      ensures old(peers)[k].linked ==>
        (Counted() <==> forall i: nat :: i < sum.size && i in bits ==> Having(old(peers), i) <= {k})
      ensures !old(peers)[k].linked ==>
        (Counted() <==> TakesNothing(old(peers)[k], old(sum.data)))
    {
      var p := peers[k];
      ghost var was := sum.data;
      Forget(k);
      ghost var without := sum.data;
      peers := peers[k := p.(gotBitSet := true, bits := bits)];
      OnClose(k);
      ghost var off := old(peers)[k := p.(linked := false)];
      UnlinkedDoesNotCount(without, off, k, peers[k]);
      assert peers == off[k := peers[k]];
      if p.linked {
        ClosedStaysExact(was, old(peers), k);
        ExactUnique(without, sum.data, peers);
        TurnedAwayIff(without, bits);
        forall i: nat | i < sum.size ensures without[i] == 0 <==> Having(old(peers), i) <= {k} {
          assert without[i] == |Having(off, i)|;
          assert Having(off, i) == Having(old(peers), i) - {k};
        }
      } else {
        assert off == old(peers);
        ExactUnique(was, without, off);
      }
    }

    /** What was known of a peer is no longer counted. */
    method Forget(k: int)
      requires Valid() && k in peers
      modifies sum
      ensures Valid()
      ensures sum.data == if peers[k].gotBitSet then Removed(old(sum.data), peers[k].bits) else old(sum.data)
      ensures sum.data == old(sum.data) <==> TakesNothing(peers[k], old(sum.data))
    {
      TurnedAwayIff(sum.data, peers[k].bits);
      if peers[k].gotBitSet {
        sum.Subtract(peers[k].bits);
      }
    }

    /**
      Have-all counts every piece for the peer. After the link has closed that is right
      only if every counter still stands for a piece this peer was known to have.
    */
    method DoCmdHaveAll(k: int, fastExtension: bool, dataLen: nat, uploading: bool)
      requires Valid() && Counted() && k in peers
      modifies this, sum
      ensures Valid()
      ensures old(peers)[k].linked ==> Counted()
      ensures !old(peers)[k].linked ==>
        var p := old(peers)[k];
        var allKnown := p.gotBitSet && forall i: nat :: i < sum.size ==> i in p.bits && old(sum.data)[i] > 0;
        (Counted() <==> !fastExtension || dataLen != 0 || uploading || sum.size == 0 || allKnown)
      ensures peers == if fastExtension && dataLen != 0 then old(peers)
                       else if !fastExtension || uploading then old(peers)[k := old(peers)[k].(linked := false)]
                       else old(peers)[k := old(peers)[k].(gotBitSet := true, bits := AllPieces(sum.size))]
    {
      if !fastExtension {
        OnClose(k);
        return;
      }
      if dataLen != 0 {
        return;
      }
      if uploading {
        OnClose(k);
        return;
      }
      Replace(k, AllPieces(sum.size));
    }

    /**
      Have-none takes back what was known; an empty set need not be counted. After the
      link has closed it takes back a second time what the close has taken already.
    */
    method DoCmdHaveNone(k: int, fastExtension: bool, dataLen: nat, turnAway: bool)
      requires Valid() && Counted() && k in peers
      modifies this, sum
      ensures Valid()
      ensures old(peers)[k].linked ==> Counted()
      ensures !old(peers)[k].linked ==>
        (Counted() <==> !fastExtension || dataLen != 0 || TakesNothing(old(peers)[k], old(sum.data)))
      ensures peers == if fastExtension && dataLen != 0 then old(peers)
                       else if !fastExtension then old(peers)[k := old(peers)[k].(linked := false)]
                       else old(peers)[k := Peer(old(peers)[k].linked && !turnAway, true, {})]
    {
      if !fastExtension {
        OnClose(k);
        return;
      }
      if dataLen != 0 {
        return;
      }
      var p := peers[k];
      ghost var was := sum.data;
      Forget(k);
      peers := peers[k := p.(gotBitSet := true, bits := {})];
      assert Added(sum.data, {}) == sum.data;
      if p.linked {
        ReplacedStaysExact(was, old(peers), k, peers[k]);
      } else {
        UnlinkedDoesNotCount(was, old(peers), k, peers[k]);
        ExactUnique(was, sum.data, peers);
      }
      if turnAway {
        ghost var before := peers;
        OnClose(k);
        assert Removed(was, {}) == was;
        assert !p.linked ==> peers == before;
      }
    }
  }

  function AllPieces(n: nat): set<nat>
    ensures forall i: nat :: i < n <==> i in AllPieces(n)
  {
    if n == 0 then {} else AllPieces(n - 1) + {n - 1}
  }
}
