/**
  The streaming part of SHA-1 and MD5, which are built alike: buffering input
  of any size into blocks, padding, and reading a digest in between. They differ
  in the order of the length bytes; the compression of one block is any function.
*/
module StreamingHash {
  import opened Common

  const BLOCK_SIZE := 64
  const TWO_64 := 0x1_0000_0000_0000_0000

  // ------------------------------------------------------- the definition by RFC

  function LittleEndian(v: nat, n: nat): (b: seq<byte>)
    ensures |b| == n
    decreases n, v
  {
    if n == 0 then [] else [(v % 256) as byte] + LittleEndian(v / 256, n - 1)
  }

  function BigEndian(v: nat, n: nat): (b: seq<byte>)
    ensures |b| == n
    decreases n, v
  {
    if n == 0 then [] else BigEndian(v / 256, n - 1) + [(v % 256) as byte]
  }

  function Length64(bits: nat, big: bool): (b: seq<byte>)
    ensures |b| == 8
  {
    if big then BigEndian(bits, 8) else LittleEndian(bits, 8)
  }

  /** As few zero bytes as bring the length to 56 modulo 64 (section 4 of RFC 3174, section 3.1 of RFC 1321). */
  function ZeroCount(size: nat): (k: nat)
    ensures k < BLOCK_SIZE && (size + 1 + k) % BLOCK_SIZE == 56
  {
    (55 - size) % BLOCK_SIZE
  }

  /** What follows a message: a one bit, zeros, and the message length in bits modulo 2^64. */
  function Tail(size: nat, big: bool): (t: seq<byte>)
    ensures (size + |t|) % BLOCK_SIZE == 0 && 9 <= |t| <= 72
  {
    [128] + Zeros(ZeroCount(size)) + Length64(8 * size % TWO_64, big)
  }

  function Padded(message: seq<byte>, big: bool): (p: seq<byte>)
    ensures |p| % BLOCK_SIZE == 0
  {
    message + Tail(|message|, big)
  }

  /** Compress the whole blocks of s, one after the other. */
  function Absorb<H>(compress: (H, seq<byte>) -> H, h: H, s: seq<byte>): H {
    if |s| < BLOCK_SIZE then h
    else Absorb(compress, compress(h, s[..BLOCK_SIZE]), s[BLOCK_SIZE..])
  }

  function Digest<H>(compress: (H, seq<byte>) -> H, start: H, message: seq<byte>, big: bool): H {
    Absorb(compress, start, Padded(message, big))
  }

  /** Absorbing whole blocks first and the rest later is absorbing all of it. */
  lemma {:induction false} AbsorbSplit<H>(compress: (H, seq<byte>) -> H, h: H, s: seq<byte>, t: seq<byte>)
    requires |s| % BLOCK_SIZE == 0
    ensures Absorb(compress, h, s + t) == Absorb(compress, Absorb(compress, h, s), t)
    decreases |s|
  {
    if |s| == 0 {
      assert s + t == t;
    } else {
      assert (s + t)[..BLOCK_SIZE] == s[..BLOCK_SIZE];
      assert (s + t)[BLOCK_SIZE..] == s[BLOCK_SIZE..] + t;
      AbsorbSplit(compress, compress(h, s[..BLOCK_SIZE]), s[BLOCK_SIZE..], t);
    }
  }

  lemma AbsorbBlock<H>(compress: (H, seq<byte>) -> H, h: H, block: seq<byte>)
    requires |block| == BLOCK_SIZE
    ensures Absorb(compress, h, block) == compress(h, block)
  {
    assert block[..BLOCK_SIZE] == block;
  }

  /** A short message is one compression of its padded self, a little longer one two. */
  lemma ShortDigest<H>(compress: (H, seq<byte>) -> H, start: H, message: seq<byte>, big: bool)
    requires |message| < BLOCK_SIZE
    ensures
      var padded := Padded(message, big);
      && |padded| == (if |message| <= 55 then BLOCK_SIZE else 2 * BLOCK_SIZE)
      && Digest(compress, start, message, big)
         == if |message| <= 55 then compress(start, padded)
            else compress(compress(start, padded[..BLOCK_SIZE]), padded[BLOCK_SIZE..])
  {
    hide Absorb;
    var padded := Padded(message, big);
    if |message| <= 55 {
      AbsorbBlock(compress, start, padded);
    } else {
      AbsorbBlock(compress, start, padded[..BLOCK_SIZE]);
      AbsorbBlock(compress, compress(start, padded[..BLOCK_SIZE]), padded[BLOCK_SIZE..]);
      AbsorbSplit(compress, start, padded[..BLOCK_SIZE], padded[BLOCK_SIZE..]);
      assert padded == padded[..BLOCK_SIZE] + padded[BLOCK_SIZE..];
    }
  }

  // ----------------------------------------------------------- the length bytes

  /** The two orders of the length bytes: the least significant one last, or first. */
  lemma LengthOrder(bits: nat)
    requires bits < 256
    ensures Length64(bits, true) == Zeros(7) + [bits as byte]
    ensures Length64(bits, false) == [bits as byte] + Zeros(7)
  {
    BigEndianBytes(bits);
    LittleEndianZeros(7);
  }

  lemma {:induction false} LittleEndianZeros(n: nat)
    ensures LittleEndian(0, n) == Zeros(n)
  {
    if n > 0 {
      LittleEndianZeros(n - 1);
    }
  }

  lemma {:induction false} LittleEndianInjective(v: nat, w: nat, n: nat)
    requires LittleEndian(v, n) == LittleEndian(w, n)
    requires v < Power(n) && w < Power(n)
    ensures v == w
    decreases n, v
  {
    if n > 0 {
      var a, b := LittleEndian(v, n), LittleEndian(w, n);
      assert a[0] == b[0] && a[1..] == b[1..];
      LittleEndianInjective(v / 256, w / 256, n - 1);
    }
  }

  lemma {:induction false} BigEndianInjective(v: nat, w: nat, n: nat)
    requires BigEndian(v, n) == BigEndian(w, n)
    requires v < Power(n) && w < Power(n)
    ensures v == w
    decreases n, v
  {
    if n > 0 {
      var a, b := BigEndian(v, n), BigEndian(w, n);
      assert a[n - 1] == b[n - 1] && a[..n - 1] == b[..n - 1];
      BigEndianInjective(v / 256, w / 256, n - 1);
    }
  }

  lemma BigEndianBytes(v: nat)
    ensures BigEndian(v, 8) ==
      [(v / 0x100_0000_0000_0000 % 256) as byte, (v / 0x1_0000_0000_0000 % 256) as byte,
       (v / 0x100_0000_0000 % 256) as byte, (v / 0x1_0000_0000 % 256) as byte,
       (v / 0x100_0000 % 256) as byte, (v / 0x1_0000 % 256) as byte, (v / 0x100 % 256) as byte, (v % 256) as byte]
  {
    var a := v / 256;
    var b := a / 256;
    var c := b / 256;
    var d := c / 256;
    var e := d / 256;
    var f := e / 256;
    var g := f / 256;
    assert b == v / 0x1_0000 && c == v / 0x100_0000 && d == v / 0x1_0000_0000 && e == v / 0x100_0000_0000;
    assert f == v / 0x1_0000_0000_0000 && g == v / 0x100_0000_0000_0000;
    assert BigEndian(g, 1) == [(g % 256) as byte];
    assert BigEndian(f, 2) == [(g % 256) as byte, (f % 256) as byte];
    assert BigEndian(e, 3) == [(g % 256) as byte, (f % 256) as byte, (e % 256) as byte];
    assert BigEndian(d, 4) == BigEndian(e, 3) + [(d % 256) as byte];
    assert BigEndian(c, 5) == BigEndian(d, 4) + [(c % 256) as byte];
    assert BigEndian(b, 6) == BigEndian(c, 5) + [(b % 256) as byte];
    assert BigEndian(a, 7) == BigEndian(b, 6) + [(a % 256) as byte];
  }

  lemma LittleEndianStep(v: nat, n: nat)
    requires n > 0
    ensures LittleEndian(v, n) == [(v % 256) as byte] + LittleEndian(v / 256, n - 1)
  {
  }

  function Power(n: nat): nat { if n == 0 then 1 else 256 * Power(n - 1) }

  lemma Power8()
    ensures Power(8) == TWO_64
  {
    assert Power(4) == 0x1_0000_0000;
  }

  lemma Length64Injective(v: nat, w: nat, big: bool)
    requires v < TWO_64 && w < TWO_64 && Length64(v, big) == Length64(w, big)
    ensures v == w
  {
    Power8();
    if big {
      BigEndianInjective(v, w, 8);
    } else {
      LittleEndianInjective(v, w, 8);
    }
  }

  /** Padding never maps two messages of fewer than 2^61 bytes to the same blocks. */
  lemma PaddedInjective(a: seq<byte>, b: seq<byte>, big: bool)
    requires 8 * |a| < TWO_64 && 8 * |b| < TWO_64 && Padded(a, big) == Padded(b, big)
    ensures a == b
  {
    hide Tail;
    hide Length64;
    TailEnds(|a|, big);
    TailEnds(|b|, big);
    LastEight(a, Tail(|a|, big));
    LastEight(b, Tail(|b|, big));
    Length64Injective(8 * |a|, 8 * |b|, big);
    SameFront(a, Tail(|a|, big), b, Tail(|b|, big));
  }

  lemma SameFront(a: seq<byte>, s: seq<byte>, b: seq<byte>, t: seq<byte>)
    requires a + s == b + t && |a| == |b|
    ensures a == b
  {
    assert (a + s)[..|a|] == a && (b + t)[..|b|] == b;
  }

  lemma LastEight(message: seq<byte>, tail: seq<byte>)
    requires |tail| >= 8
    ensures (message + tail)[|message + tail| - 8..] == tail[|tail| - 8..]
  {
  }

  lemma TailEnds(size: nat, big: bool)
    ensures Tail(size, big)[|Tail(size, big)| - 8..] == Length64(8 * size % TWO_64, big)
  {
    hide Length64;
  }

  // ------------------------------------------------------------ what is kept of it

  /** The state after `seen`: whole blocks compressed and counted, the last bytes still to come. */
  ghost predicate Kept<H>(compress: (H, seq<byte>) -> H, start: H, hash: H, count: nat, rest: seq<byte>,
                          seen: seq<byte>) {
    && |rest| <= |seen|
    && (|seen| - |rest|) % BLOCK_SIZE == 0
    && count == (|seen| - |rest|) % TWO_64
    && rest == seen[|seen| - |rest|..]
    && hash == Absorb(compress, start, seen[..|seen| - |rest|])
  }

  lemma KeptByte<H>(compress: (H, seq<byte>) -> H, start: H, hash: H, count: nat, rest: seq<byte>,
                    seen: seq<byte>, b: byte)
    requires Kept(compress, start, hash, count, rest, seen)
    ensures Kept(compress, start, hash, count, rest + [b], seen + [b])
  {
    assert (seen + [b])[..|seen| - |rest|] == seen[..|seen| - |rest|];
  }

  lemma NextBlock(size: nat, count: nat)
    requires size % BLOCK_SIZE == 0 && count == size % TWO_64
    ensures (size + BLOCK_SIZE) % BLOCK_SIZE == 0
    ensures (count + BLOCK_SIZE) % TWO_64 == (size + BLOCK_SIZE) % TWO_64
  {
    ShiftTwo64(count + BLOCK_SIZE, size / TWO_64);
  }

  lemma KeptFull<H>(compress: (H, seq<byte>) -> H, start: H, hash: H, count: nat, rest: seq<byte>, seen: seq<byte>)
    requires Kept(compress, start, hash, count, rest, seen) && |rest| == BLOCK_SIZE
    ensures Kept(compress, start, compress(hash, rest), (count + BLOCK_SIZE) % TWO_64, [], seen)
  {
    hide Absorb;
    var front := seen[..|seen| - BLOCK_SIZE];
    AbsorbSplit(compress, start, front, rest);
    AbsorbBlock(compress, hash, rest);
    assert front + rest == seen == seen[..|seen|];
    NextBlock(|front|, count);
  }

  lemma KeptBlock<H>(compress: (H, seq<byte>) -> H, start: H, hash: H, count: nat, seen: seq<byte>, block: seq<byte>)
    requires Kept(compress, start, hash, count, [], seen) && |block| == BLOCK_SIZE
    ensures Kept(compress, start, compress(hash, block), (count + BLOCK_SIZE) % TWO_64, [], seen + block)
  {
    hide Absorb;
    AbsorbSplit(compress, start, seen, block);
    AbsorbBlock(compress, hash, block);
    assert seen[..|seen| - 0] == seen;
    var all := seen + block;
    assert all[..|all| - 0] == all && all[|all| - 0..] == [];
    NextBlock(|seen|, count);
  }

  /** Finishing from the kept state gives the digest of everything seen. */
  lemma KeptDigest<H>(compress: (H, seq<byte>) -> H, start: H, hash: H, count: nat, rest: seq<byte>,
                      seen: seq<byte>, big: bool)
    requires Kept(compress, start, hash, count, rest, seen) && |rest| < BLOCK_SIZE
    ensures Absorb(compress, hash, rest + Ending(|rest|, count, big)) == Digest(compress, start, seen, big)
  {
    hide Absorb;
    hide Tail;
    hide Ending;
    EndingIsTail(|seen|, |rest|, count, big);
    var front := seen[..|seen| - |rest|];
    assert Padded(seen, big) == front + (rest + Tail(|seen|, big));
    AbsorbSplit(compress, start, front, rest + Tail(|seen|, big));
  }

  /** The padding worked out from what is in the buffer and the count of processed bytes. */
  function Ending(size: nat, count: nat, big: bool): seq<byte> {
    [128] + Zeros(ZeroCount(size)) + Length64(8 * (count + size) % TWO_64, big)
  }

  lemma EndingIsTail(total: nat, size: nat, count: nat, big: bool)
    requires size <= total && (total - size) % BLOCK_SIZE == 0 && count == (total - size) % TWO_64
    ensures Ending(size, count, big) == Tail(total, big)
  {
    hide Length64;
    hide Zeros;
    var k := (total - size) / BLOCK_SIZE;
    Shift64(55 - total, k);
    var q := (total - size) / TWO_64;
    ShiftTwo64(8 * (count + size), 8 * q);
  }

  /** The length fits behind the padding in the same block. */
  lemma OneBlock(head: seq<byte>, first: seq<byte>, count: nat, big: bool)
    requires |head| <= 55 && first == head + [128] + Zeros(BLOCK_SIZE - |head| - 1)
    ensures first[..56] + Length64(8 * (count + |head|) % TWO_64, big) + first[64..]
            == head + Ending(|head|, count, big)
    ensures |head + Ending(|head|, count, big)| == BLOCK_SIZE
    ensures (head + Ending(|head|, count, big))[..|head|] == head
  {
    hide Length64;
    assert first[..56] == head + [128] + Zeros(55 - |head|);
  }

  /** The length goes into a second block. */
  lemma TwoBlocks(head: seq<byte>, first: seq<byte>, extra: seq<byte>, count: nat, big: bool)
    requires 55 < |head| < BLOCK_SIZE && first == head + [128] + Zeros(BLOCK_SIZE - |head| - 1)
    requires extra == Zeros(56) + Length64(8 * (count + |head|) % TWO_64, big)
    ensures first + extra == head + Ending(|head|, count, big)
  {
    hide Length64;
    assert Zeros(BLOCK_SIZE - |head| - 1) + Zeros(56) == Zeros(ZeroCount(|head|));
  }

  lemma Shift64(x: int, k: int)
    ensures (x + BLOCK_SIZE * k) % BLOCK_SIZE == x % BLOCK_SIZE
  {
  }

  lemma ShiftTwo64(x: int, k: int)
    ensures (x + TWO_64 * k) % TWO_64 == x % TWO_64
  {
  }

  // --------------------------------------------------------------- the class

  class StreamingHash<H> {
    const compress: (H, seq<byte>) -> H
    const start: H
    const big: bool  // SHA-1 writes the length most significant byte first, MD5 last

    var hash: H
    var numBytes: nat  // in processed blocks, modulo 2^64
    const buffer: array<byte>
    var bufferSize: nat
    ghost var data: seq<byte>  // everything added so far

    ghost predicate Valid()
      reads this, buffer
    {
      && buffer.Length == BLOCK_SIZE && bufferSize < BLOCK_SIZE
      && Kept(compress, start, hash, numBytes, buffer[..bufferSize], data)
    }

    constructor (compress: (H, seq<byte>) -> H, start: H, big: bool)
      ensures Valid() && data == [] && fresh(buffer)
      ensures this.compress == compress && this.start == start && this.big == big
    {
      this.compress, this.start, this.big := compress, start, big;
      buffer := new byte[BLOCK_SIZE](_ => 0);
      hash, numBytes, bufferSize, data := start, 0, 0, [];
    }

    method Reset()
      requires Valid()
      modifies this
      ensures Valid() && data == []
    {
      numBytes, bufferSize, hash, data := 0, 0, start, [];
    }

    method ProcessBlock(block: seq<byte>)
      modifies this`hash
      ensures hash == compress(old(hash), block)
    {
      hash := compress(hash, block);
    }

    /** Moves bytes into the buffer until it is full or they run out. */
    method Fill(bytes: seq<byte>, from: nat) returns (current: nat)
      requires from <= |bytes| && buffer.Length == BLOCK_SIZE && bufferSize <= BLOCK_SIZE
      requires Kept(compress, start, hash, numBytes, buffer[..bufferSize], data)
      modifies this`bufferSize, this`data, buffer
      ensures from <= current <= |bytes| && bufferSize <= BLOCK_SIZE
      ensures bufferSize == old(bufferSize) + current - from
      ensures bufferSize == BLOCK_SIZE || current == |bytes|
      ensures data == old(data) + bytes[from..current]
      ensures Kept(compress, start, hash, numBytes, buffer[..bufferSize], data)
    {
      hide Kept;
      current := from;
      while current < |bytes| && bufferSize < BLOCK_SIZE
        invariant from <= current <= |bytes| && bufferSize <= BLOCK_SIZE
        invariant bufferSize == old(bufferSize) + current - from
        invariant data == old(data) + bytes[from..current]
        invariant Kept(compress, start, hash, numBytes, buffer[..bufferSize], data)
      {
        KeptByte(compress, start, hash, numBytes, buffer[..bufferSize], data, bytes[current]);
        ghost var rest := buffer[..bufferSize];
        buffer[bufferSize] := bytes[current];
        assert buffer[..bufferSize + 1] == rest + [bytes[current]];
        assert bytes[from..current + 1] == bytes[from..current] + [bytes[current]];
        data := data + [bytes[current]];
        bufferSize := bufferSize + 1;
        current := current + 1;
      }
    }

    /** Any number of bytes may be added at a time. */
    method Add(bytes: seq<byte>)
      requires Valid()
      modifies this, buffer
      ensures Valid() && data == old(data) + bytes
    {
      hide Kept;
      var current := 0;
      if bufferSize > 0 {
        current := Fill(bytes, 0);
      }
      if bufferSize == BLOCK_SIZE {
        KeptFull(compress, start, hash, numBytes, buffer[..bufferSize], data);
        ProcessBlock(buffer[..bufferSize]);
        numBytes := (numBytes + BLOCK_SIZE) % TWO_64;
        bufferSize := 0;
        assert buffer[..0] == [];
      }
      assert data == old(data) + bytes[..current];
      if current == |bytes| {
        assert bytes[..current] == bytes;
        return;
      }
      while |bytes| - current >= BLOCK_SIZE
        invariant current <= |bytes| && bufferSize == 0
        invariant data == old(data) + bytes[..current]
        invariant Kept(compress, start, hash, numBytes, [], data)
      {
        var block := bytes[current..current + BLOCK_SIZE];
        KeptBlock(compress, start, hash, numBytes, data, block);
        ProcessBlock(block);
        data := data + block;
        current := current + BLOCK_SIZE;
        numBytes := (numBytes + BLOCK_SIZE) % TWO_64;
      }
      assert buffer[..0] == [];
      ghost var done := current;
      current := Fill(bytes, current);
      assert bytes == bytes[..done] + bytes[done..current];
    }

    /** Most significant byte first. */
    method WriteBigEndian(block: array<byte>, at: nat, bits: nat)
      requires at + 8 <= block.Length
      modifies block
      ensures block[..] == old(block[..at]) + BigEndian(bits, 8) + old(block[at + 8..])
    {
      hide BigEndian;
      block[at] := (bits / 0x100_0000_0000_0000 % 256) as byte;
      block[at + 1] := (bits / 0x1_0000_0000_0000 % 256) as byte;
      block[at + 2] := (bits / 0x100_0000_0000 % 256) as byte;
      block[at + 3] := (bits / 0x1_0000_0000 % 256) as byte;
      block[at + 4] := (bits / 0x100_0000 % 256) as byte;
      block[at + 5] := (bits / 0x1_0000 % 256) as byte;
      block[at + 6] := (bits / 0x100 % 256) as byte;
      block[at + 7] := (bits % 256) as byte;
      BigEndianBytes(bits);
      assert block[at..at + 8] == BigEndian(bits, 8);
      assert block[..at] == old(block[..at]) && block[at + 8..] == old(block[at + 8..]);
      assert block[..] == block[..at] + block[at..at + 8] + block[at + 8..];
    }

    /** Least significant byte first. */
    method WriteLittleEndian(block: array<byte>, at: nat, bits: nat)
      requires at + 8 <= block.Length
      modifies block
      ensures block[..] == old(block[..at]) + LittleEndian(bits, 8) + old(block[at + 8..])
    {
      hide LittleEndian;
      var left := bits;
      ghost var done: seq<byte> := [];
      ghost var before := block[..];
      assert done + LittleEndian(left, 8) == LittleEndian(bits, 8);
      for i := 0 to 8
        invariant |done| == i && block[..] == before[..at] + done + before[at + i..]
        invariant done + LittleEndian(left, 8 - i) == LittleEndian(bits, 8)
      {
        LittleEndianStep(left, 8 - i);
        done := done + [(left % 256) as byte];
        assert done + LittleEndian(left / 256, 8 - i - 1) == LittleEndian(bits, 8);
        block[at + i] := (left % 256) as byte;
        left := left / 256;
      }
      assert done == done + LittleEndian(left, 0);
    }

    method WriteLength(block: array<byte>, at: nat, bits: nat)
      requires at + 8 <= block.Length
      modifies block
      ensures block[..] == old(block[..at]) + Length64(bits, big) + old(block[at + 8..])
    {
      if big {
        WriteBigEndian(block, at, bits);
      } else {
        WriteLittleEndian(block, at, bits);
      }
    }

    /** Bytes of a message with its one bit and zeros, worked out in bits as 448 modulo 512. */
    method PaddedLength() returns (length: nat)
      requires bufferSize < BLOCK_SIZE
      ensures length == bufferSize + 1 + ZeroCount(bufferSize)
    {
      length := bufferSize * 8 + 1;
      var lower := length % 512;
      if lower <= 448 {
        length := length + 448 - lower;
      } else {
        length := length + 512 + 448 - lower;
      }
      length := length / 8;
    }

    /** Appends the one bit and the zeros, running over into a second block when they do not fit. */
    method PadOut(paddedLength: nat) returns (extra: array<byte>)
      requires buffer.Length == BLOCK_SIZE && bufferSize < BLOCK_SIZE && paddedLength <= 2 * BLOCK_SIZE
      modifies buffer
      ensures buffer[..] == old(buffer[..bufferSize]) + [128] + Zeros(BLOCK_SIZE - bufferSize - 1)
      ensures fresh(extra) && extra.Length == BLOCK_SIZE
      ensures paddedLength >= BLOCK_SIZE ==> extra[..paddedLength - BLOCK_SIZE] == Zeros(paddedLength - BLOCK_SIZE)
    {
      ghost var head := buffer[..bufferSize];
      extra := new byte[BLOCK_SIZE](_ => 0);
      buffer[bufferSize] := 128;
      var i := bufferSize + 1;
      while i < BLOCK_SIZE
        modifies buffer
        invariant bufferSize < i <= BLOCK_SIZE
        invariant buffer[..i] == head + [128] + Zeros(i - bufferSize - 1)
      {
        buffer[i] := 0;
        i := i + 1;
      }
      assert buffer[..BLOCK_SIZE] == buffer[..];
      while i < paddedLength
        modifies extra
        invariant i == BLOCK_SIZE || i <= paddedLength
        invariant BLOCK_SIZE <= i && i - BLOCK_SIZE <= extra.Length
        invariant extra[..i - BLOCK_SIZE] == Zeros(i - BLOCK_SIZE)
      {
        extra[i - BLOCK_SIZE] := 0;
        i := i + 1;
      }
    }

    /** Pads what is in the buffer and compresses it, in one block or two. */
    method ProcessBuffer()
      requires buffer.Length == BLOCK_SIZE && bufferSize < BLOCK_SIZE
      modifies this`hash, buffer
      ensures buffer[..bufferSize] == old(buffer[..bufferSize])
      ensures hash == Absorb(compress, old(hash), old(buffer[..bufferSize]) + Ending(bufferSize, numBytes, big))
    {
      hide Absorb;
        hide Length64;
      hide Ending;
      var paddedLength := PaddedLength();
      ghost var head := buffer[..bufferSize];
      var extra := PadOut(paddedLength);
      ghost var first := buffer[..];
      assert first[..bufferSize] == head;
      var msgBits := 8 * (numBytes + bufferSize) % TWO_64;
      if paddedLength < BLOCK_SIZE {
        OneBlock(head, first, numBytes, big);
        WriteLength(buffer, paddedLength, msgBits);
        AbsorbBlock(compress, hash, buffer[..]);
        ProcessBlock(buffer[..]);
      } else {
        WriteLength(extra, paddedLength - BLOCK_SIZE, msgBits);
        TwoBlocks(head, first, extra[..], numBytes, big);
        AbsorbSplit(compress, hash, first, extra[..]);
        AbsorbBlock(compress, hash, first);
        AbsorbBlock(compress, compress(hash, first), extra[..]);
        ProcessBlock(buffer[..]);
        ProcessBlock(extra[..]);
      }
    }

    /** The digest of everything added so far. More may be added afterwards as if it had not been read. */
    method GetHash() returns (digest: H)
      requires Valid()
      modifies this`hash, buffer
      ensures Valid() && data == old(data) && hash == old(hash)
      ensures digest == Digest(compress, start, data, big)
    {
      hide Kept;
      hide Absorb;
      var oldHash := hash;
      KeptDigest(compress, start, hash, numBytes, buffer[..bufferSize], data, big);
      ProcessBuffer();
      digest := hash;
      hash := oldHash;
    }
  }

  /** The kept state is determined by what was seen. */
  lemma KeptUnique<H>(compress: (H, seq<byte>) -> H, start: H, seen: seq<byte>,
                      hash: H, count: nat, rest: seq<byte>, hash': H, count': nat, rest': seq<byte>)
    requires Kept(compress, start, hash, count, rest, seen) && |rest| < BLOCK_SIZE
    requires Kept(compress, start, hash', count', rest', seen) && |rest'| < BLOCK_SIZE
    ensures hash == hash' && count == count' && rest == rest'
  {
    hide Absorb;
    assert |rest| == |seen| % BLOCK_SIZE == |rest'|;
  }

  /** Two runs that were given the same bytes, in any portions and with digests read in between, agree. */
  lemma PortionsDoNotMatter<H>(a: StreamingHash<H>, b: StreamingHash<H>)
    requires a.Valid() && b.Valid() && a.data == b.data
    requires a.compress == b.compress && a.start == b.start && a.big == b.big
    ensures a.hash == b.hash && a.numBytes == b.numBytes && a.bufferSize == b.bufferSize
    ensures a.buffer[..a.bufferSize] == b.buffer[..b.bufferSize]
  {
    hide Kept;
    KeptUnique(a.compress, a.start, a.data, a.hash, a.numBytes, a.buffer[..a.bufferSize],
               b.hash, b.numBytes, b.buffer[..b.bufferSize]);
    assert |a.buffer[..a.bufferSize]| == a.bufferSize && |b.buffer[..b.bufferSize]| == b.bufferSize;
  }
}
