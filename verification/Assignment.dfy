/**
  Which piece a peer is given to download, and how many peers work on each
  piece: the picker and the download counts of `CBTStorage`, and the peers that
  take work and give it back.
*/
module Assignment {
  import opened Progress

  /** A piece may be taken by one more peer although others work on it already. */
  predicate Stackable(priority: int, workers: int) {
    (priority > 10 && workers <= 2) || (priority > 5 && workers <= 1)
  }

  /** At most this many peers share a piece, in the end game. */
  const OVERLAP_LIMIT: int := 20

  function Workers(downloading: map<int, int>, i: int): int {
    if i in downloading then downloading[i] else 0
  }

  /** The peer has the piece, and it is wanted and unfinished. */
  predicate Offered(priority: seq<int>, finished: set<int>, bitSet: set<int>, i: int) {
    0 <= i < |priority| && i in bitSet && i !in finished && priority[i] > 0
  }

  predicate Assignable(priority: seq<int>, finished: set<int>, downloading: map<int, int>, bitSet: set<int>, i: int) {
    Offered(priority, finished, bitSet, i) && (i in downloading ==> Stackable(priority[i], downloading[i]))
  }

  /** In the end game an offered piece in progress with workers to spare is shared. */
  ghost predicate Shares(priority: seq<int>, finished: set<int>, downloading: map<int, int>, bitSet: set<int>) {
    && |Unfinished(priority, finished)| <= 2 * |downloading|
    && exists i <- downloading :: Offered(priority, finished, bitSet, i) && downloading[i] < OVERLAP_LIMIT
  }

  /** The peer that takes an assignable piece is to fetch it together with others. */
  predicate Cooperates(priority: seq<int>, finished: set<int>, downloading: map<int, int>, i: int)
    requires 0 <= i < |priority|
  {
    || i in downloading || priority[i] > 5
    || |Unfinished(priority, finished)| < 2 * |downloading[i := 1]|
  }

  ghost predicate Ascending(s: seq<int>) { forall p, q :: 0 <= p < q < |s| ==> s[p] < s[q] }

  /** The draw decides among all the eligible, in the order of their numbers. */
  ghost predicate Drawn(eligible: set<int>, random: nat, piece: int) {
    exists s: seq<int> ::
      && Ascending(s) && s != [] && (forall i :: i in s <==> i in eligible)
      && piece == s[random % |s|]
  }

  lemma DrawnIsEligible(eligible: set<int>, random: nat, piece: int)
    requires Drawn(eligible, random, piece)
    ensures piece in eligible
  {
    var s: seq<int> :| Ascending(s) && s != [] && (forall i :: i in s <==> i in eligible) && piece == s[random % |s|];
    assert piece in s;
  }

  lemma AscendingAppend(s: seq<int>, x: int)
    requires Ascending(s) && forall i :: i in s ==> i < x
    ensures Ascending(s + [x]) && forall i :: i in s + [x] <==> i in s || i == x
  {
    forall p | 0 <= p < |s| ensures s[p] < x {
      assert s[p] in s;
    }
  }

  class TaskBoard {
    const pieceCount: nat

    var priority: seq<int>
    var finished: set<int>
    var pieceSum: seq<int>
    var orphans: set<int>         // pieces with stray blocks in store
    var downloading: map<int, int>

    ghost predicate Valid()
      reads this
    {
      && |priority| == pieceCount && |pieceSum| == pieceCount
      && (forall i :: 0 <= i < pieceCount ==> 0 <= priority[i])
      && (forall i :: 0 <= i < pieceCount ==> 0 <= pieceSum[i] < 0x0FFFFFFF)
      && (forall i :: i in orphans ==> 0 <= i < pieceCount)
      && (forall i :: i in downloading ==> 0 <= i < pieceCount && 1 <= downloading[i] <= OVERLAP_LIMIT)
    }

    ghost predicate CanOffer(bitSet: set<int>, i: int)
      reads this`priority, this`finished
    {
      Offered(priority, finished, bitSet, i)
    }

    ghost predicate CanAssign(bitSet: set<int>, i: int)
      reads this`priority, this`finished, this`downloading
    {
      Assignable(priority, finished, downloading, bitSet, i)
    }

    /** Assignable with the highest priority there is. */
    ghost predicate TopChoice(bitSet: set<int>, i: int)
      reads this`priority, this`finished, this`downloading
    {
      CanAssign(bitSet, i) && forall j :: CanAssign(bitSet, j) ==> priority[j] <= priority[i]
    }

    /** The pieces of top priority, or those of them with the fewest sources. */
    ghost function TopChoices(bitSet: set<int>, rarest: bool): set<int>
      reads this
      requires Valid()
    {
      set i | 0 <= i < pieceCount && TopChoice(bitSet, i) &&
              (rarest ==> forall j :: TopChoice(bitSet, j) ==> pieceSum[i] <= pieceSum[j])
    }

    constructor (priority: seq<int>, pieceSum: seq<int>)
      requires |priority| == |pieceSum|
      requires forall i :: 0 <= i < |priority| ==> 0 <= priority[i] && 0 <= pieceSum[i] < 0x0FFFFFFF
      ensures Valid() && pieceCount == |priority| && this.priority == priority && this.pieceSum == pieceSum
      ensures finished == {} && orphans == {} && downloading == map[]
    {
      pieceCount := |priority|;
      this.priority, this.pieceSum := priority, pieceSum;
      finished, orphans, downloading := {}, {}, map[];
    }

    /** Priorities with everything masked out that the peer lacks or that is finished. */
    method OfferedPriorities(bitSet: set<int>) returns (pc: seq<int>)
      requires Valid()
      ensures |pc| == pieceCount
      ensures forall i :: 0 <= i < pieceCount ==> pc[i] == if CanOffer(bitSet, i) then priority[i] else 0
    {
      pc := priority;
      for j := 0 to pieceCount
        invariant |pc| == pieceCount
        invariant forall i :: 0 <= i < pieceCount ==> pc[i] == if i < j && i !in bitSet then 0 else priority[i]
      {
        if j !in bitSet {
          pc := pc[j := 0];
        }
      }
      for n := 0 to pieceCount
        invariant |pc| == pieceCount
        invariant forall i :: 0 <= i < pieceCount ==>
                    pc[i] == if i !in bitSet || (i < n && i in finished) then 0 else priority[i]
      {
        if n in finished {
          pc := pc[n := 0];
        }
      }
    }

    /** Also mask out pieces in progress, unless they may be stacked. */
    method AssignablePriorities(offered: seq<int>, ghost bitSet: set<int>) returns (pc: seq<int>)
      requires Valid() && |offered| == pieceCount
      requires forall i :: 0 <= i < pieceCount ==> offered[i] == if CanOffer(bitSet, i) then priority[i] else 0
      ensures |pc| == pieceCount
      ensures forall i :: 0 <= i < pieceCount ==> pc[i] == if CanAssign(bitSet, i) then priority[i] else 0
    {
      pc := offered;
      for i := 0 to pieceCount
        invariant |pc| == pieceCount
        invariant forall j :: 0 <= j < pieceCount ==>
                    pc[j] == if CanOffer(bitSet, j) && (j < i ==> CanAssign(bitSet, j)) then priority[j] else 0
      {
        if i in downloading {
          var prio := priority[i];
          if prio > 10 && downloading[i] <= 2 {
          } else if prio > 5 && downloading[i] <= 1 {
          } else {
            pc := pc[i := 0];
          }
        }
      }
    }

    method MaxPriority(pc: seq<int>) returns (maxprio: int)
      requires forall i :: 0 <= i < |pc| ==> 0 <= pc[i]
      ensures maxprio >= 0 && forall i :: 0 <= i < |pc| ==> pc[i] <= maxprio
      ensures maxprio > 0 ==> exists i :: 0 <= i < |pc| && pc[i] == maxprio
    {
      maxprio := 0;
      for m := 0 to |pc|
        invariant maxprio >= 0 && forall i :: 0 <= i < m ==> pc[i] <= maxprio
        invariant maxprio > 0 ==> exists i :: 0 <= i < m && pc[i] == maxprio
      {
        if pc[m] > maxprio {
          maxprio := pc[m];
        }
      }
    }

    /** The first orphan piece of the highest priority among orphans. */
    method BestOrphan(pc: seq<int>) returns (index: int, prio: int)
      requires Valid() && |pc| == pieceCount
      ensures prio >= 0 && forall i :: i in orphans ==> pc[i] <= prio
      ensures prio > 0 ==> index in orphans && pc[index] == prio
      ensures prio > 0 ==> forall i :: i in orphans && i < index ==> pc[i] < prio
    {
      index, prio := -1, 0;
      for i := 0 to pieceCount
        invariant prio >= 0 && forall j :: j in orphans && j < i ==> pc[j] <= prio
        invariant prio > 0 ==> index in orphans && pc[index] == prio && index < i
        invariant prio > 0 ==> forall j :: j in orphans && j < index ==> pc[j] < prio
      {
        if i in orphans && pc[i] > prio {
          index, prio := i, pc[i];
        }
      }
    }

    /** Choose among the pieces of top priority: any of them, or one of the rarest. */
    method PickAmong(pc: seq<int>, maxprio: int, rarest: bool, random: nat) returns (piecetask: int)
      requires Valid() && |pc| == pieceCount
      requires exists i :: 0 <= i < pieceCount && pc[i] == maxprio
      ensures 0 <= piecetask < pieceCount && pc[piecetask] == maxprio
      ensures Drawn(AtTop(pc, maxprio, rarest), random, piecetask)
      ensures rarest ==> forall i :: 0 <= i < pieceCount && pc[i] == maxprio ==> pieceSum[piecetask] <= pieceSum[i]
    {
      var list: seq<int> := [];
      for m := 0 to pieceCount
        invariant Ascending(list)
        invariant forall i :: i in list <==> 0 <= i < m && pc[i] == maxprio
      {
        if pc[m] == maxprio {
          AscendingAppend(list, m);
          list := list + [m];
        }
      }
      ghost var top :| 0 <= top < pieceCount && pc[top] == maxprio;
      assert top in list;
      if !rarest {
        piecetask := list[random % |list|];
        assert piecetask in list;
        return;
      }
      var leastlist := Rarest(list);
      piecetask := leastlist[random % |leastlist|];
      assert piecetask in leastlist;
    }

    ghost function AtTop(pc: seq<int>, maxprio: int, rarest: bool): set<int>
      requires Valid() && |pc| == pieceCount
      reads this
    {
      set i | 0 <= i < pieceCount && pc[i] == maxprio &&
              (rarest ==> forall j :: 0 <= j < pieceCount && pc[j] == maxprio ==> pieceSum[i] <= pieceSum[j])
    }

    /** Those with the fewest sources, in the same order. */
    method Rarest(list: seq<int>) returns (leastlist: seq<int>)
      requires Valid() && list != [] && Ascending(list) && forall i :: i in list ==> 0 <= i < pieceCount
      ensures leastlist != [] && Ascending(leastlist)
      ensures forall i :: i in leastlist <==> i in list && forall j :: j in list ==> pieceSum[i] <= pieceSum[j]
    {
      var gmin := 0x0FFFFFFF;
      leastlist := [];
      for p := 0 to |list|
        invariant forall i :: i in list[..p] ==> 0 <= i < pieceCount && gmin <= pieceSum[i]
        invariant forall i :: i in leastlist ==> i in list[..p] && pieceSum[i] == gmin
        invariant forall i :: i in list[..p] && pieceSum[i] == gmin ==> i in leastlist
        invariant Ascending(leastlist)
        invariant leastlist == [] ==> p == 0 && gmin == 0x0FFFFFFF
      {
        var next := list[p];
        assert list[..p + 1] == list[..p] + [next] && next in list;
        assert forall i :: i in list[..p] ==> i < next;
        var pnum := pieceSum[next];
        if pnum < gmin {
          gmin := pnum;
          leastlist := [next];
        } else if pnum == gmin {
          AscendingAppend(leastlist, next);
          leastlist := leastlist + [next];
        }
      }
      assert list[..|list|] == list;
      assert leastlist[0] in leastlist;
    }

    /** Some piece is assignable: take one of top priority and count the worker. */
    method AssignTop(bitSet: set<int>, pc: seq<int>, maxprio: int, left: nat, rarest: bool, random: nat)
      returns (piecetask: int, coorperate: bool)
      requires Valid() && |pc| == pieceCount && maxprio > 0
      requires forall i :: 0 <= i < pieceCount ==> pc[i] == if CanAssign(bitSet, i) then priority[i] else 0
      requires forall i :: 0 <= i < pieceCount ==> pc[i] <= maxprio
      requires exists i :: 0 <= i < pieceCount && pc[i] == maxprio
      modifies this`downloading
      ensures Valid()
      ensures downloading == old(downloading)[piecetask := Workers(old(downloading), piecetask) + 1]
      ensures old(TopChoice(bitSet, piecetask))
      ensures old(exists i :: i in orphans && TopChoice(bitSet, i)) ==> piecetask in orphans
      ensures forall i :: i in orphans && i < piecetask && piecetask in orphans ==> !old(TopChoice(bitSet, i))
      ensures !old(exists i :: i in orphans && TopChoice(bitSet, i)) ==>
                && piecetask in old(TopChoices(bitSet, rarest))
                && Drawn(old(TopChoices(bitSet, rarest)), random, piecetask)
      ensures coorperate <==> piecetask in old(downloading) || priority[piecetask] > 5 || left < 2 * |downloading|
    {
      hide Drawn;
      hide TopChoices;
      piecetask := ChooseTop(bitSet, pc, maxprio, rarest, random);
      if piecetask in downloading {
        downloading := downloading[piecetask := downloading[piecetask] + 1];
        coorperate := true;
      } else {
        downloading := downloading[piecetask := 1];
        coorperate := priority[piecetask] > 5;
      }
      if left < 2 * |downloading| {
        coorperate := true;
      }
    }

    /** The first orphan of top priority, else one of the others. */
    method ChooseTop(bitSet: set<int>, pc: seq<int>, maxprio: int, rarest: bool, random: nat) returns (piecetask: int)
      requires Valid() && |pc| == pieceCount && maxprio > 0
      requires forall i :: 0 <= i < pieceCount ==> pc[i] == if CanAssign(bitSet, i) then priority[i] else 0
      requires forall i :: 0 <= i < pieceCount ==> pc[i] <= maxprio
      requires exists i :: 0 <= i < pieceCount && pc[i] == maxprio
      ensures TopChoice(bitSet, piecetask)
      ensures (exists i :: i in orphans && TopChoice(bitSet, i)) ==> piecetask in orphans
      ensures forall i :: i in orphans && i < piecetask && piecetask in orphans ==> !TopChoice(bitSet, i)
      ensures !(exists i :: i in orphans && TopChoice(bitSet, i)) ==>
                Drawn(TopChoices(bitSet, rarest), random, piecetask) && piecetask in TopChoices(bitSet, rarest)
    {
      hide Drawn;
      TopIsMax(bitSet, pc, maxprio);
      var oIndex, oPrio := BestOrphan(pc);
      if oPrio >= maxprio {
        piecetask := oIndex;
      } else {
        piecetask := PickAmong(pc, maxprio, rarest, random);
        assert AtTop(pc, maxprio, rarest) == TopChoices(bitSet, rarest);
        DrawnIsEligible(TopChoices(bitSet, rarest), random, piecetask);
      }
    }

    lemma TopIsMax(bitSet: set<int>, pc: seq<int>, maxprio: int)
      requires Valid() && |pc| == pieceCount && maxprio > 0
      requires forall i :: 0 <= i < pieceCount ==> pc[i] == if CanAssign(bitSet, i) then priority[i] else 0
      requires forall i :: 0 <= i < pieceCount ==> pc[i] <= maxprio
      requires exists i :: 0 <= i < pieceCount && pc[i] == maxprio
      ensures forall i :: TopChoice(bitSet, i) <==> 0 <= i < pieceCount && pc[i] == maxprio
    {
      forall i | 0 <= i < pieceCount ensures pc[i] == maxprio <==> TopChoice(bitSet, i) {
        if TopChoice(bitSet, i) {
          var j :| 0 <= j < pieceCount && pc[j] == maxprio;
          assert CanAssign(bitSet, j);
        }
      }
    }

    /** End game: share the offered piece in progress that has the fewest workers, below the limit. */
    method ShareInEndGame(bitSet: set<int>, pc2: seq<int>) returns (ok: bool, piecetask: int)
      requires Valid() && |pc2| == pieceCount
      requires forall i :: 0 <= i < pieceCount ==> pc2[i] == if CanOffer(bitSet, i) then priority[i] else 0
      modifies this`downloading
      ensures Valid()
      ensures ok <==> exists i :: i in old(downloading) && CanOffer(bitSet, i) && old(downloading)[i] < OVERLAP_LIMIT
      ensures ok ==> piecetask in old(downloading) && CanOffer(bitSet, piecetask)
      ensures ok ==> forall i :: i in old(downloading) && CanOffer(bitSet, i) ==>
                && old(downloading)[piecetask] <= old(downloading)[i]
                && (i < piecetask ==> old(downloading)[piecetask] < old(downloading)[i])
      ensures downloading == if ok then old(downloading)[piecetask := old(downloading)[piecetask] + 1]
                             else old(downloading)
    {
      var overlapidx, overlap := -1, 20;
      for i := 0 to pieceCount
        invariant overlap <= OVERLAP_LIMIT
        invariant overlapidx == -1 <==> overlap == OVERLAP_LIMIT
        invariant overlapidx != -1 ==> overlapidx in downloading && downloading[overlapidx] == overlap
        invariant overlapidx != -1 ==> CanOffer(bitSet, overlapidx)
        invariant forall j :: j in downloading && CanOffer(bitSet, j) && j < i ==> overlap <= downloading[j]
        invariant forall j :: j in downloading && CanOffer(bitSet, j) && j < overlapidx ==> overlap < downloading[j]
      {
        if i in downloading {
          if pc2[i] > 0 && downloading[i] < overlap {
            overlap := downloading[i];
            overlapidx := i;
          }
        }
      }
      if overlapidx == -1 {
        return false, -1;
      }
      downloading := downloading[overlapidx := downloading[overlapidx] + 1];
      return true, overlapidx;
    }

    /** Outside the end game a stackable piece in progress is looked for; there never is one. */
    method FindStackable(bitSet: set<int>, pc2: seq<int>) returns (found: bool)
      requires Valid() && |pc2| == pieceCount
      requires forall i :: 0 <= i < pieceCount ==> pc2[i] == if CanOffer(bitSet, i) then priority[i] else 0
      ensures found <==> exists i :: i in downloading && CanAssign(bitSet, i)
    {
      for i := 0 to pieceCount
        invariant forall j :: j in downloading && j < i ==> !CanAssign(bitSet, j)
      {
        if i in downloading {
          var prio := pc2[i];
          if prio > 10 && downloading[i] <= 2 {
            assert CanAssign(bitSet, i);
            return true;
          } else if prio > 5 && downloading[i] <= 1 {
            assert CanAssign(bitSet, i);
            return true;
          }
        }
      }
      found := false;
    }

    /**
      Pick a piece for a peer. `roll` and `random` stand for the two random draws,
      `pickLeast` for the percentage derived from availability.
    */
    method GetPieceTask(bitSet: set<int>, roll: nat, pickLeast: int, random: nat)
      returns (ok: bool, piecetask: int, coorperate: bool)
      requires Valid()
      modifies this`downloading
      ensures Valid()
      // only what the peer has, unfinished and selected, is ever given out, and it is counted
      ensures ok ==> CanOffer(bitSet, piecetask)
      ensures downloading == if ok then old(downloading)[piecetask := Workers(old(downloading), piecetask) + 1]
                             else old(downloading)
      // while something is assignable: top priority first, orphans before others, else the rarest
      ensures old(exists i :: CanAssign(bitSet, i)) ==> ok && old(TopChoice(bitSet, piecetask))
      ensures old(exists i :: i in orphans && TopChoice(bitSet, i)) ==> piecetask in orphans
      ensures forall i :: i in orphans && i < piecetask && piecetask in orphans ==> !old(TopChoice(bitSet, i))
      ensures old(exists i :: CanAssign(bitSet, i)) && !old(exists i :: i in orphans && TopChoice(bitSet, i)) ==>
                && Drawn(old(TopChoices(bitSet, roll <= pickLeast)), random, piecetask)
                && piecetask in old(TopChoices(bitSet, roll <= pickLeast))
      ensures old(exists i :: CanAssign(bitSet, i)) && 0 <= piecetask < |priority| ==>
                (coorperate <==> Cooperates(priority, finished, old(downloading), piecetask))
      // otherwise only the end game shares a piece in progress, the one with fewest workers
      ensures !old(exists i :: CanAssign(bitSet, i)) ==>
                (ok <==> Shares(priority, finished, old(downloading), bitSet))
      ensures !old(exists i :: CanAssign(bitSet, i)) && ok ==>
                piecetask in old(downloading) && coorperate &&
                forall i :: i in old(downloading) && CanOffer(bitSet, i) ==>
                  && old(downloading)[piecetask] <= old(downloading)[i]
                  && (i < piecetask ==> old(downloading)[piecetask] < old(downloading)[i])
      // several workers on one piece always cooperate
      ensures ok && piecetask in old(downloading) ==> coorperate
    {
      hide Unfinished;
      hide Stackable;
      var pc2 := OfferedPriorities(bitSet);
      var pc := AssignablePriorities(pc2, bitSet);
      var maxprio := MaxPriority(pc);
      var _, left := CountPieces(priority, finished);
      if maxprio > 0 {
        piecetask, coorperate := AssignTop(bitSet, pc, maxprio, left, roll <= pickLeast, random);
        return true, piecetask, coorperate;
      }
      assert forall i :: 0 <= i < pieceCount ==> pc[i] == 0;
      ok, piecetask, coorperate := ShareInProgress(bitSet, pc2, left);
    }

    /** Nothing is assignable: only in the end game is a piece in progress given out. */
    method ShareInProgress(bitSet: set<int>, pc2: seq<int>, left: nat)
      returns (ok: bool, piecetask: int, coorperate: bool)
      requires Valid() && |pc2| == pieceCount && left == |Unfinished(priority, finished)|
      requires forall i :: 0 <= i < pieceCount ==> pc2[i] == if CanOffer(bitSet, i) then priority[i] else 0
      requires forall i :: !CanAssign(bitSet, i)
      modifies this`downloading
      ensures Valid()
      ensures ok <==> Shares(priority, finished, old(downloading), bitSet)
      ensures ok ==> piecetask in old(downloading) && CanOffer(bitSet, piecetask)
      ensures ok ==> forall i :: i in old(downloading) && CanOffer(bitSet, i) ==>
                && old(downloading)[piecetask] <= old(downloading)[i]
                && (i < piecetask ==> old(downloading)[piecetask] < old(downloading)[i])
      ensures downloading == if ok then old(downloading)[piecetask := old(downloading)[piecetask] + 1]
                             else old(downloading)
      ensures coorperate == ok
    {
      if downloading == map[] {
        return false, -1, false;
      }
      if left > |downloading| * 2 {
        var found := FindStackable(bitSet, pc2);
        if found {
          assert false;  // such a piece would have been assignable above
        }
        return false, -1, false;
      }
      ok, piecetask := ShareInEndGame(bitSet, pc2);
      coorperate := ok;
    }

    /** An appointed piece (suggested, or allowed fast) is given out under the same stacking rule. */
    method GetAppointedTask(index: int) returns (ok: bool, coorperate: bool)
      requires Valid() && 0 <= index < pieceCount
      modifies this`downloading
      ensures Valid()
      ensures ok <==> index !in finished && priority[index] != 0 &&
                      (index in old(downloading) ==> Stackable(priority[index], old(downloading)[index]))
      ensures downloading == if ok then old(downloading)[index := Workers(old(downloading), index) + 1]
                             else old(downloading)
      ensures ok ==> (coorperate <==> index in old(downloading) || priority[index] > 5)
      // the picker's own rule, but for the number of missing pieces, which is not asked here
      ensures ok ==> (Cooperates(priority, finished, old(downloading), index) <==>
                      coorperate || |Unfinished(priority, finished)| < 2 * |downloading|)
    {
      assert downloading[index := Workers(downloading, index) + 1].Keys == downloading[index := 1].Keys;
      if index in finished {
        return false, false;
      }
      if priority[index] == 0 {
        return false, false;
      }
      if index in downloading {
        if priority[index] > 10 && downloading[index] <= 2 {
          downloading := downloading[index := downloading[index] + 1];
          return true, true;
        } else if priority[index] > 5 && downloading[index] <= 1 {
          downloading := downloading[index := downloading[index] + 1];
          return true, true;
        }
        return false, false;
      }
      downloading := downloading[index := 1];
      return true, priority[index] > 5;
    }

    /** One worker fewer; the entry goes when nobody is left. */
    method AbandonPieceTask(index: int)
      requires Valid()
      modifies this`downloading
      ensures Valid()
      ensures downloading == Abandoned(old(downloading), index)
    {
      if index < 0 || index >= pieceCount {
        return;
      }
      if index in downloading {
        downloading := downloading[index := downloading[index] - 1];
        if downloading[index] <= 0 {
          downloading := downloading - {index};
        }
      }
    }

    /** The effect of an accepted piece on the board. */
    method FinishPiece(index: int)
      requires Valid() && 0 <= index < pieceCount
      modifies this`finished, this`orphans
      ensures Valid()
      ensures finished == if priority[index] == 0 then old(finished) else old(finished) + {index}
      ensures orphans == old(orphans) - {index}
    {
      orphans := orphans - {index};
      if index in finished {
        return;
      }
      if priority[index] == 0 {
        return;
      }
      finished := finished + {index};
    }
  }

  function Abandoned(downloading: map<int, int>, i: int): map<int, int> {
    if i !in downloading then downloading
    else if downloading[i] - 1 <= 0 then downloading - {i}
    else downloading[i := downloading[i] - 1]
  }

  // ------------------------------------------------------------ counts and peers

  /** The peers whose current request is piece i. */
  function Holders(requests: map<int, int>, i: int): set<int> {
    set p | p in requests && requests[p] == i
  }

  /**
    The count of a piece is at least the number of peers working on it, and equal
    to it while the piece is unfinished; no peer works on an unwanted piece.
  */
  ghost predicate Counted(priority: seq<int>, finished: set<int>, downloading: map<int, int>, requests: map<int, int>) {
    && (forall p :: p in requests ==> 0 <= requests[p] < |priority| && priority[requests[p]] > 0)
    && (forall i :: |Holders(requests, i)| <= Workers(downloading, i))
    && (forall i :: i !in finished ==> |Holders(requests, i)| == Workers(downloading, i))
  }

  lemma HoldersAfterTake(requests: map<int, int>, p: int, i: int)
    requires p !in requests
    ensures forall j :: |Holders(requests[p := i], j)| == |Holders(requests, j)| + (if j == i then 1 else 0)
  {
    forall j ensures |Holders(requests[p := i], j)| == |Holders(requests, j)| + (if j == i then 1 else 0) {
      HoldersJoin(requests, p, i, j);
    }
  }

  lemma HoldersJoin(requests: map<int, int>, p: int, i: int, j: int)
    requires p !in requests
    ensures Holders(requests[p := i], j) == if j == i then Holders(requests, j) + {p} else Holders(requests, j)
    ensures p !in Holders(requests, j)
  {
    var after := Holders(requests[p := i], j);
    forall q ensures q in after <==> q in Holders(requests, j) || (q == p && j == i) {
    }
  }

  lemma HoldersAfterDrop(requests: map<int, int>, p: int)
    requires p in requests
    ensures forall j :: |Holders(requests - {p}, j)| == |Holders(requests, j)| - (if j == requests[p] then 1 else 0)
  {
    assert requests == (requests - {p})[p := requests[p]];
    HoldersAfterTake(requests - {p}, p, requests[p]);
  }

  lemma TakeKeepsCounts(priority: seq<int>, finished: set<int>, downloading: map<int, int>,
                        requests: map<int, int>, p: int, i: int)
    requires Counted(priority, finished, downloading, requests)
    requires p !in requests && 0 <= i < |priority| && priority[i] > 0
    ensures Counted(priority, finished, downloading[i := Workers(downloading, i) + 1], requests[p := i])
  {
    HoldersAfterTake(requests, p, i);
    var downloading', requests' := downloading[i := Workers(downloading, i) + 1], requests[p := i];
    forall j
      ensures |Holders(requests', j)| <= Workers(downloading', j)
      ensures j !in finished ==> |Holders(requests', j)| == Workers(downloading', j)
    {
      assert |Holders(requests, j)| <= Workers(downloading, j);
    }
  }

  lemma AbandonKeepsCounts(priority: seq<int>, finished: set<int>, downloading: map<int, int>,
                           requests: map<int, int>, p: int)
    requires Counted(priority, finished, downloading, requests) && p in requests
    ensures Counted(priority, finished, Abandoned(downloading, requests[p]), requests - {p})
  {
    HoldersAfterDrop(requests, p);
    var i := requests[p];
    assert p in Holders(requests, i);
    assert |Holders(requests, i)| >= 1;
  }

  /**
    Dropping a request without giving the piece back keeps the counts of unfinished
    pieces right once the piece is finished. The entry that stays does count elsewhere.
  */
  lemma DropFinishedKeepsCounts(priority: seq<int>, finished: set<int>, downloading: map<int, int>,
                                requests: map<int, int>, p: int)
    requires Counted(priority, finished, downloading, requests) && p in requests && requests[p] in finished
    ensures Counted(priority, finished, downloading, requests - {p})
  {
    HoldersAfterDrop(requests, p);
  }

  /** The work in progress without what is left over of finished pieces. */
  function InProgress(downloading: map<int, int>, finished: set<int>): map<int, int> {
    map i | i in downloading && i !in finished :: downloading[i]
  }

  lemma InProgressSmaller(downloading: map<int, int>, finished: set<int>)
    ensures |InProgress(downloading, finished)| <= |downloading|
  {
    SubsetSize(InProgress(downloading, finished).Keys, downloading.Keys);
  }

  lemma SubsetSize(a: set<int>, b: set<int>)
    requires a <= b
    ensures |a| <= |b|
  {
    assert b == a + (b - a);
  }

  /** What is assignable does not depend on entries of finished pieces. */
  lemma LeftoversDoNotBlock(priority: seq<int>, finished: set<int>, downloading: map<int, int>,
                            bitSet: set<int>, i: int)
    ensures Assignable(priority, finished, InProgress(downloading, finished), bitSet, i) <==>
            Assignable(priority, finished, downloading, bitSet, i)
  {
  }

  /**
    Entries of finished pieces change whether a piece in progress is shared exactly when
    there is one to share and the number of missing pieces lies between the two bounds.
  */
  lemma LeftoversShareIff(priority: seq<int>, finished: set<int>, downloading: map<int, int>, bitSet: set<int>)
    ensures
      var left, most := |Unfinished(priority, finished)|, 2 * |downloading|;
      var least := 2 * |InProgress(downloading, finished)|;
      (Shares(priority, finished, downloading, bitSet) <==>
       Shares(priority, finished, InProgress(downloading, finished), bitSet)) <==>
      !((exists i <- downloading :: Offered(priority, finished, bitSet, i) && downloading[i] < OVERLAP_LIMIT)
        && least < left <= most)
  {
    InProgressSmaller(downloading, finished);
    var some := exists i <- downloading :: Offered(priority, finished, bitSet, i) && downloading[i] < OVERLAP_LIMIT;
    if some {
      var i :| i in downloading && Offered(priority, finished, bitSet, i) && downloading[i] < OVERLAP_LIMIT;
      assert i in InProgress(downloading, finished);
    }
  }

  /** Likewise whether the taker of an assignable piece is to cooperate. */
  lemma LeftoversCooperateIff(priority: seq<int>, finished: set<int>, downloading: map<int, int>, i: int)
    requires 0 <= i < |priority| && i !in finished
    ensures
      var left, most := |Unfinished(priority, finished)|, 2 * |downloading| + 2;
      var least := 2 * |InProgress(downloading, finished)| + 2;
      (Cooperates(priority, finished, downloading, i) <==>
       Cooperates(priority, finished, InProgress(downloading, finished), i)) <==>
      i in downloading || priority[i] > 5 || !(least <= left < most)
  {
    InProgressSmaller(downloading, finished);
    var now := InProgress(downloading, finished);
    if i !in downloading {
      assert downloading[i := 1].Keys == downloading.Keys + {i};
      assert now[i := 1].Keys == now.Keys + {i};
    }
  }

  /** The peers of a task, sharing one board. */
  class Swarm {
    const board: TaskBoard
    var requests: map<int, int>   // current request of each peer that has one

    ghost predicate Valid()
      reads this, board
    {
      board.Valid() && Counted(board.priority, board.finished, board.downloading, requests)
    }

    constructor (priority: seq<int>, pieceSum: seq<int>)
      requires |priority| == |pieceSum|
      requires forall i :: 0 <= i < |priority| ==> 0 <= priority[i] && 0 <= pieceSum[i] < 0x0FFFFFFF
      ensures Valid() && fresh(board) && requests == map[]
    {
      board := new TaskBoard(priority, pieceSum);
      requests := map[];
    }

    /** An idle peer asks for work by its bitset. */
    method TakeTask(peer: int, bitSet: set<int>, roll: nat, pickLeast: int, random: nat) returns (ok: bool)
      requires Valid() && peer !in requests
      modifies this`requests, board`downloading
      ensures Valid()
      ensures ok <==> old(exists i :: board.CanAssign(bitSet, i)) ||
                      Shares(board.priority, board.finished, old(board.downloading), bitSet)
      ensures if ok then
                && peer in requests && requests == old(requests)[peer := requests[peer]]
                && board.CanOffer(bitSet, requests[peer])
                && board.downloading == old(board.downloading)[
                     requests[peer] := Workers(old(board.downloading), requests[peer]) + 1]
              else requests == old(requests) && board.downloading == old(board.downloading)
    {
      var index, coop;
      ok, index, coop := board.GetPieceTask(bitSet, roll, pickLeast, random);
      if ok {
        TakeKeepsCounts(board.priority, board.finished, old(board.downloading), requests, peer, index);
        requests := requests[peer := index];
      }
    }

    lemma PeerFacts()
      requires Valid()
      ensures |board.priority| == board.pieceCount && forall i :: 0 <= i < board.pieceCount ==> board.priority[i] >= 0
    {
    }

    /** An idle peer takes up a suggested or allowed-fast piece. */
    method TakeAppointed(peer: int, index: int) returns (ok: bool)
      requires Valid() && peer !in requests && 0 <= index < board.pieceCount
      modifies this`requests, board`downloading
      ensures Valid()
      ensures ok <==> index !in board.finished && board.priority[index] != 0 &&
                      (index in old(board.downloading) ==>
                         Stackable(board.priority[index], old(board.downloading)[index]))
      ensures if ok
              then && requests == old(requests)[peer := index]
                   && board.downloading == old(board.downloading)[index := Workers(old(board.downloading), index) + 1]
              else requests == old(requests) && board.downloading == old(board.downloading)
    {
      hide Counted;
      hide Cooperates;
      hide Unfinished;
      hide TaskBoard.Valid;
      PeerFacts();
      var coop;
      ok, coop := board.GetAppointedTask(index);
      if ok {
        TakeKeepsCounts(board.priority, board.finished, old(board.downloading), requests, peer, index);
        requests := requests[peer := index];
      }
    }

    /** `CancelMyRequest`, also the last step after a piece has been completed by the peer. */
    method CancelMyRequest(peer: int)
      requires Valid()
      modifies this`requests, board`downloading
      ensures Valid()
      ensures requests == old(requests) - {peer}
      ensures board.downloading == if peer in old(requests) then Abandoned(old(board.downloading), old(requests)[peer])
                                   else old(board.downloading)
    {
      if peer !in requests {
        return;
      }
      AbandonKeepsCounts(board.priority, board.finished, board.downloading, requests, peer);
      board.AbandonPieceTask(requests[peer]);
      requests := requests - {peer};
    }

    /** A connection closes; what it had of its piece may go to the orphans. */
    method OnConnectionClose(peer: int, leavesOrphans: bool)
      requires Valid()
      modifies this`requests, board`downloading, board`orphans
      ensures Valid()
      ensures requests == old(requests) - {peer}
      ensures board.downloading == if peer in old(requests) then Abandoned(old(board.downloading), old(requests)[peer])
                                   else old(board.downloading)
      ensures board.orphans == if peer in old(requests) && leavesOrphans then old(board.orphans) + {old(requests)[peer]}
                               else old(board.orphans)
    {
      if peer in requests {
        if leavesOrphans {
          board.orphans := board.orphans + {requests[peer]};
        }
        AbandonKeepsCounts(board.priority, board.finished, board.downloading, requests, peer);
        board.AbandonPieceTask(requests[peer]);
        requests := requests - {peer};
      }
    }

    /** A piece that fails its hash with no block marked with the peer's address: give it back, then close. */
    method FailHash(peer: int)
      requires Valid() && peer in requests
      modifies this`requests, board`downloading, board`orphans
      ensures Valid()
      ensures requests == old(requests) - {peer}
      ensures board.downloading == Abandoned(old(board.downloading), old(requests)[peer])
      ensures board.orphans == old(board.orphans)
    {
      AbandonKeepsCounts(board.priority, board.finished, board.downloading, requests, peer);
      board.AbandonPieceTask(requests[peer]);
      requests := requests - {peer};
      OnConnectionClose(peer, false);
    }

    /** Another route finishes a piece. */
    method FinishPiece(index: int)
      requires Valid() && 0 <= index < board.pieceCount
      modifies board`finished, board`orphans
      ensures Valid()
      ensures board.finished == if board.priority[index] == 0 then old(board.finished)
                                else old(board.finished) + {index}
      ensures board.orphans == old(board.orphans) - {index}
    {
      board.FinishPiece(index);
    }

    /**
      Stray blocks complete the peer's piece at once: it is written and the request
      reset, but the piece is not given back. Its count stays one too high. No count of
      an unfinished piece is wrong, but the entry brings the end game nearer.
    */
    method CompleteFromOrphans(peer: int)
      requires Valid() && peer in requests
      modifies this`requests, board`finished, board`orphans
      ensures Valid()
      ensures requests == old(requests) - {peer} && board.finished == old(board.finished) + {old(requests[peer])}
      ensures board.downloading == old(board.downloading)
      ensures board.orphans == old(board.orphans) - {old(requests[peer])}
      ensures |Holders(requests, old(requests[peer]))| < Workers(board.downloading, old(requests[peer]))
    {
      HoldersAfterDrop(requests, peer);
      board.FinishPiece(requests[peer]);
      DropFinishedKeepsCounts(board.priority, board.finished, board.downloading, requests, peer);
      requests := requests - {peer};
    }
  }

  /**
    A run with four pieces and three peers: one piece is completed from orphans, one is in
    progress and the third peer has only that one. Without the leftover entry it would be
    refused, since three missing pieces are more than two for each in progress.
  */
  method LeftoverSharesEarly(swarm: Swarm, roll: nat, pickLeast: int, random: nat) returns (shared: bool)
    requires swarm.Valid() && swarm.requests == map[] && swarm.board.downloading == map[]
    requires swarm.board.priority == [1, 1, 1, 1] && swarm.board.finished == {}
    modifies swarm, swarm.board
    ensures shared && swarm.requests == map[2 := 1, 3 := 1]
    ensures swarm.board.priority == [1, 1, 1, 1] && swarm.board.finished == {0}
    ensures !Shares([1, 1, 1, 1], {0}, map[1 := 1], {1})
  {
    hide Shares;
    hide Counted;
    hide TaskBoard.Valid;
    hide Holders;
    FourPieces();
    assert swarm.board.CanAssign({0}, 0);
    var first := swarm.TakeTask(1, {0}, roll, pickLeast, random);
    assert swarm.board.CanAssign({1}, 1);
    var second := swarm.TakeTask(2, {1}, roll, pickLeast, random);
    swarm.CompleteFromOrphans(1);
    assert swarm.board.downloading == map[0 := 1, 1 := 1];
    shared := swarm.TakeTask(3, {1}, roll, pickLeast, random);
  }

  /** With the leftover entry of piece 0 the end game is on for the other three, without it is not. */
  lemma FourPieces()
    ensures Shares([1, 1, 1, 1], {0}, map[0 := 1, 1 := 1], {1}) && !Shares([1, 1, 1, 1], {0}, map[1 := 1], {1})
    ensures InProgress(map[0 := 1, 1 := 1], {0}) == map[1 := 1]
  {
    var p, d := [1, 1, 1, 1], map[0 := 1, 1 := 1];
    assert Unfinished(p, {0}) == {1, 2, 3};
    assert d.Keys == {0, 1} && |d| == |d.Keys|;
    assert 1 in d && Offered(p, {0}, {1}, 1) && d[1] < OVERLAP_LIMIT;
    assert map[1 := 1].Keys == {1};
  }
}
