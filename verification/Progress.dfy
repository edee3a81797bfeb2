/** Which pieces of a task are wanted and which of them are still missing. */
module Progress {

  /** Pieces with a priority. */
  function Selected(priority: seq<int>): set<int> {
    set i | 0 <= i < |priority| && priority[i] != 0
  }

  function Unfinished(priority: seq<int>, finished: set<int>): set<int> {
    set i | 0 <= i < |priority| && priority[i] != 0 && i !in finished
  }

  method CountPieces(priority: seq<int>, finished: set<int>) returns (done: nat, open: nat)
    ensures open == |Unfinished(priority, finished)|
    ensures done + open == |Selected(priority)|
  {
    done, open := 0, 0;
    ghost var missing: set<int>, all: set<int> := {}, {};
    for i := 0 to |priority|
      invariant missing == set j | j in Unfinished(priority, finished) && j < i
      invariant all == set j | j in Selected(priority) && j < i
      invariant open == |missing| && done + open == |all|
    {
      if priority[i] != 0 {
        all := all + {i};
        if i in finished {
          done := done + 1;
        } else {
          open := open + 1;
          missing := missing + {i};
        }
      }
    }
    assert missing == Unfinished(priority, finished) && all == Selected(priority);
  }
}
