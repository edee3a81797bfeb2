/**
  The least-recently-used read buffer: a list of stretches of pieces that is
  searched from the front, a block that serves a request moving to the back.
*/
module ReadBuffer {
  import opened Common

  const BUFFER_BLOCK_SIZE: nat := 128 * 1024

  datatype BufferBlock = BufferBlock(pIndex: int, offset: nat, data: seq<byte>) {
    predicate Serves(index: int, from: nat, len: nat) {
      pIndex == index && offset <= from && from + len <= offset + |data|
    }

    /** The block holds what the piece consists of. */
    ghost predicate Matches(piece: seq<byte>) {
      offset + |data| <= |piece| && data == piece[offset..offset + |data|]
    }
  }

  type Buffer = seq<BufferBlock>

  /** Every block of piece i matches its content. Nothing makes it so when the piece is accepted. */
  ghost predicate Agrees(buf: Buffer, i: int, piece: seq<byte>) {
    forall b :: b in buf && b.pIndex == i ==> b.Matches(piece)
  }

  // ------------------------------------------------------------------ one search

  /** The first block that serves a request; the length of the buffer when none does. */
  function FirstServing(buf: Buffer, i: int, from: nat, len: nat): (n: nat)
    ensures n <= |buf|
    ensures n < |buf| ==> buf[n].Serves(i, from, len)
    ensures forall m :: 0 <= m < n ==> !buf[m].Serves(i, from, len)
  {
    if buf == [] then 0
    else if buf[0].Serves(i, from, len) then 0
    else 1 + FirstServing(buf[1..], i, from, len)
  }

  predicate Hit(buf: Buffer, i: int, from: nat, len: nat) { FirstServing(buf, i, from, len) < |buf| }

  function Answer(buf: Buffer, i: int, from: nat, len: nat): (data: seq<byte>)
    requires Hit(buf, i, from, len)
    ensures |data| == len
  {
    var b := buf[FirstServing(buf, i, from, len)];
    b.data[from - b.offset..from - b.offset + len]
  }

  function MovedToBack(buf: Buffer, n: nat): Buffer
    requires n < |buf|
  {
    buf[..n] + buf[n + 1..] + [buf[n]]
  }

  /** The buffer after a search. */
  function Searched(buf: Buffer, i: int, from: nat, len: nat): Buffer {
    if Hit(buf, i, from, len) then MovedToBack(buf, FirstServing(buf, i, from, len)) else buf
  }

  lemma FirstServingUnique(buf: Buffer, i: int, from: nat, len: nat, n: nat)
    requires n < |buf| && buf[n].Serves(i, from, len)
    requires forall m :: 0 <= m < n ==> !buf[m].Serves(i, from, len)
    ensures FirstServing(buf, i, from, len) == n
  {
  }

  lemma HitIff(buf: Buffer, i: int, from: nat, len: nat)
    ensures Hit(buf, i, from, len) <==> exists b :: b in buf && b.Serves(i, from, len)
  {
  }

  lemma SearchedSameBlocks(buf: Buffer, i: int, from: nat, len: nat)
    ensures multiset(Searched(buf, i, from, len)) == multiset(buf)
    ensures forall b :: b in Searched(buf, i, from, len) <==> b in buf
  {
    if Hit(buf, i, from, len) {
      var n := FirstServing(buf, i, from, len);
      assert buf == buf[..n] + [buf[n]] + buf[n + 1..];
    }
    forall b ensures b in Searched(buf, i, from, len) <==> b in buf {
      assert b in multiset(Searched(buf, i, from, len)) <==> b in multiset(buf);
    }
  }

  /** If this request hits, it yields the piece's bytes. */
  ghost predicate Right(buf: Buffer, i: int, piece: seq<byte>, from: nat, len: nat) {
    Hit(buf, i, from, len) ==> from + len <= |piece| && Answer(buf, i, from, len) == piece[from..from + len]
  }

  lemma MatchingBlockAnswers(buf: Buffer, i: int, piece: seq<byte>, from: nat, len: nat)
    requires Hit(buf, i, from, len) && buf[FirstServing(buf, i, from, len)].Matches(piece)
    ensures Right(buf, i, piece, from, len)
  {
    var b := buf[FirstServing(buf, i, from, len)];
    var answer, part := Answer(buf, i, from, len), piece[from..from + len];
    forall k | 0 <= k < len ensures answer[k] == part[k] {
      assert b.data[from - b.offset + k] == piece[b.offset..b.offset + |b.data|][from - b.offset + k];
    }
  }

  /** No block in front of block n covers all of it. */
  ghost predicate Unshadowed(buf: Buffer, n: nat)
    requires n < |buf|
  {
    forall m :: 0 <= m < n ==> !buf[m].Serves(buf[n].pIndex, buf[n].offset, |buf[n].data|)
  }

  /** Every request is answered rightly exactly when each block that is not covered from the front matches. */
  lemma AnswersRightIff(buf: Buffer, i: int, piece: seq<byte>)
    ensures (forall from: nat, len: nat :: Right(buf, i, piece, from, len)) <==>
            forall n: nat :: n < |buf| && buf[n].pIndex == i && Unshadowed(buf, n) ==> buf[n].Matches(piece)
  {
    if forall from: nat, len: nat :: Right(buf, i, piece, from, len) {
      forall n: nat | n < |buf| && buf[n].pIndex == i && Unshadowed(buf, n) ensures buf[n].Matches(piece) {
        var b := buf[n];
        FirstServingUnique(buf, i, b.offset, |b.data|, n);
        assert Right(buf, i, piece, b.offset, |b.data|);
        assert b.data[b.offset - b.offset..b.offset - b.offset + |b.data|] == b.data;
      }
    }
    if forall n: nat :: n < |buf| && buf[n].pIndex == i && Unshadowed(buf, n) ==> buf[n].Matches(piece) {
      forall from: nat, len: nat ensures Right(buf, i, piece, from, len) {
        if Hit(buf, i, from, len) {
          assert Unshadowed(buf, FirstServing(buf, i, from, len));
          MatchingBlockAnswers(buf, i, piece, from, len);
        }
      }
    }
  }

  // -------------------------------------------------------------- runs of searches

  /** All requests of a run are answered rightly. */
  ghost predicate RunRight(buf: Buffer, i: int, piece: seq<byte>, run: seq<(nat, nat)>)
    decreases |run|
  {
    run == [] ||
    (Right(buf, i, piece, run[0].0, run[0].1) && RunRight(Searched(buf, i, run[0].0, run[0].1), i, piece, run[1..]))
  }

  lemma {:induction false} AgreeingRunRight(buf: Buffer, i: int, piece: seq<byte>, run: seq<(nat, nat)>)
    requires Agrees(buf, i, piece)
    ensures RunRight(buf, i, piece, run)
    decreases |run|
  {
    if run != [] {
      var from, len := run[0].0, run[0].1;
      if Hit(buf, i, from, len) {
        MatchingBlockAnswers(buf, i, piece, from, len);
      }
      SearchedSameBlocks(buf, i, from, len);
      AgreeingRunRight(Searched(buf, i, from, len), i, piece, run[1..]);
    }
  }

  function Repeated(from: nat, len: nat, times: nat): seq<(nat, nat)> {
    if times == 0 then [] else [(from, len)] + Repeated(from, len, times - 1)
  }

  /** Asking for a block's own range again and again moves whatever covers it out of the way. */
  lemma {:induction false} RepeatedReadReaches(buf: Buffer, n: nat, piece: seq<byte>)
    requires n < |buf| && !buf[n].Matches(piece)
    ensures !RunRight(buf, buf[n].pIndex, piece, Repeated(buf[n].offset, |buf[n].data|, n + 1))
    decreases n
  {
    var b := buf[n];
    var i, from, len := b.pIndex, b.offset, |b.data|;
    var run := Repeated(from, len, n + 1);
    var m := FirstServing(buf, i, from, len);
    assert run[0] == (from, len) && run[1..] == Repeated(from, len, n);
    if m == n {
      assert Answer(buf, i, from, len) == b.data[0..len] == b.data;
      assert !Right(buf, i, piece, from, len);
    } else {
      var next := Searched(buf, i, from, len);
      assert m < n && next[n - 1] == b;
      RepeatedReadReaches(next, n - 1, piece);
    }
  }

  /** Every run of reads of a piece is answered rightly exactly when no buffered block of it disagrees. */
  lemma RunsRightIff(buf: Buffer, i: int, piece: seq<byte>)
    ensures (forall run :: RunRight(buf, i, piece, run)) <==> Agrees(buf, i, piece)
  {
    if Agrees(buf, i, piece) {
      forall run ensures RunRight(buf, i, piece, run) {
        AgreeingRunRight(buf, i, piece, run);
      }
    } else {
      var b :| b in buf && b.pIndex == i && !b.Matches(piece);
      var n: nat :| n < |buf| && buf[n] == b;
      RepeatedReadReaches(buf, n, piece);
    }
  }

  // ------------------------------------------------------------ adding and evicting

  /** Data cut into blocks, the last one possibly short. */
  function BlocksOf(i: int, offset: nat, data: seq<byte>): Buffer
    decreases |data|
  {
    if data == [] then [] else
      var n := Min(BUFFER_BLOCK_SIZE, |data|);
      [BufferBlock(i, offset, data[..n])] + BlocksOf(i, offset + n, data[n..])
  }

  lemma NoBlocks(i: int, offset: nat)
    ensures BlocksOf(i, offset, []) == []
  {
  }

  lemma BlocksOfStep(buf: Buffer, i: int, offset: nat, data: seq<byte>)
    requires data != []
    ensures
      var n := Min(BUFFER_BLOCK_SIZE, |data|);
      buf + BlocksOf(i, offset, data) == buf + [BufferBlock(i, offset, data[..n])] + BlocksOf(i, offset + n, data[n..])
  {
  }

  /** The newest blocks, as many as fit. */
  function Newest(buf: Buffer, capacity: nat): Buffer {
    if |buf| <= capacity then buf else buf[|buf| - capacity..]
  }

  lemma {:induction false} BlocksOfRange(i: int, offset: nat, data: seq<byte>)
    ensures forall b :: b in BlocksOf(i, offset, data) ==>
              b.pIndex == i && |b.data| <= BUFFER_BLOCK_SIZE && offset <= b.offset &&
                b.offset + |b.data| <= offset + |data|
    decreases |data|
  {
    if data != [] {
      var n := Min(BUFFER_BLOCK_SIZE, |data|);
      BlocksOfRange(i, offset + n, data[n..]);
    }
  }

  lemma {:induction false} BlocksOfMatch(i: int, offset: nat, data: seq<byte>, piece: seq<byte>)
    requires offset + |data| <= |piece| && data == piece[offset..offset + |data|]
    ensures forall b :: b in BlocksOf(i, offset, data) ==> b.Matches(piece)
    decreases |data|
  {
    if data != [] {
      var n := Min(BUFFER_BLOCK_SIZE, |data|);
      assert data[..n] == piece[offset..offset + n];
      assert data[n..] == piece[offset + n..offset + |data|];
      BlocksOfMatch(i, offset + n, data[n..], piece);
    }
  }

  /** Buffering parts of piece i makes no other piece disagree, nor i itself if they are its own. */
  lemma BufferingAgrees(buf: Buffer, i: int, offset: nat, data: seq<byte>, capacity: nat, j: int, piece: seq<byte>)
    requires Agrees(buf, j, piece)
    requires i == j ==> offset + |data| <= |piece| && data == piece[offset..offset + |data|]
    ensures Agrees(Newest(buf + BlocksOf(i, offset, data), capacity), j, piece)
  {
    hide BufferBlock.Matches;
    BlocksOfRange(i, offset, data);
    if i == j {
      BlocksOfMatch(i, offset, data, piece);
    }
  }

  /** The first block of a piece that was not buffered before answers requests for it. */
  lemma HeadBlockAnswers(buf: Buffer, i: int, read: seq<byte>, capacity: nat)
    requires forall b :: b in buf ==> b.pIndex != i
    requires 0 < |read| <= 2 * BUFFER_BLOCK_SIZE && capacity >= 2
    ensures
      var after, len := Newest(buf + BlocksOf(i, 0, read), capacity), Min(BUFFER_BLOCK_SIZE, |read|);
      Hit(after, i, 0, len) && Answer(after, i, 0, len) == read[..len]
  {
    var len := Min(BUFFER_BLOCK_SIZE, |read|);
    var blocks, head := BlocksOf(i, 0, read), BufferBlock(i, 0, read[..len]);
    var after := Newest(buf + blocks, capacity);
    var rest := read[len..];
    BlocksOfRange(i, len, rest);
    assert Min(BUFFER_BLOCK_SIZE, |rest|) == |rest| && rest[|rest|..] == [];
    NoBlocks(i, len + |rest|);
    assert |BlocksOf(i, len, rest)| <= 1;
    assert blocks == [head] + BlocksOf(i, len, rest) && |blocks| <= 2;
    var n := |after| - |blocks|;
    assert after[n] == head && forall m :: 0 <= m < n ==> after[m] in buf;
    FirstServingUnique(after, i, 0, len, n);
    assert head.data[0..len] == read[..len];
  }
}
