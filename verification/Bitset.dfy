/**
  A set of piece indices packed eight to a byte, the first in the highest bit,
  as it is kept per peer and sent on the wire.
*/
module Bitset {
  import opened Common

  // ---------------------------------------------------------------- one byte

  /** The byte with only bit j set, counted from the highest. */
  function Mask(j: nat): bv8
    requires j < 8
  {
    match j
    case 0 => 0x80 case 1 => 0x40 case 2 => 0x20 case 3 => 0x10
    case 4 => 0x08 case 5 => 0x04 case 6 => 0x02 case _ => 0x01
  }

  predicate Bit(b: bv8, j: nat)
    requires j < 8
  {
    b & Mask(j) != 0
  }

  /** The bits are counted from the top: each mask is twice the next, the last one is 1. */
  lemma MasksFromTop(j: nat)
    requires j < 8
    ensures if j == 7 then Mask(j) == 1 else Mask(j) == Mask(j + 1) << 1
  {
  }

  function WithBit(b: bv8, j: nat, on: bool): (c: bv8)
    requires j < 8
    ensures Bit(c, j) == on
    ensures forall k: nat :: k < 8 && k != j ==> Bit(c, k) == Bit(b, k)
  {
    if on then b | Mask(j) else b & !Mask(j)
  }

  function One(b: bv8, j: nat): nat
    requires j < 8
  {
    if Bit(b, j) then 1 else 0
  }

  function Ones(b: bv8): nat {
    One(b, 0) + One(b, 1) + One(b, 2) + One(b, 3) + One(b, 4) + One(b, 5) + One(b, 6) + One(b, 7)
  }

  /** The table of bit counts, in rows of sixteen. */
  function Row(h: nat): seq<nat> {
    if h == 0 then [0, 1, 1, 2, 1, 2, 2, 3, 1, 2, 2, 3, 2, 3, 3, 4]
    else if h == 1 then [1, 2, 2, 3, 2, 3, 3, 4, 2, 3, 3, 4, 3, 4, 4, 5]
    else if h == 2 then [1, 2, 2, 3, 2, 3, 3, 4, 2, 3, 3, 4, 3, 4, 4, 5]
    else if h == 3 then [2, 3, 3, 4, 3, 4, 4, 5, 3, 4, 4, 5, 4, 5, 5, 6]
    else if h == 4 then [1, 2, 2, 3, 2, 3, 3, 4, 2, 3, 3, 4, 3, 4, 4, 5]
    else if h == 5 then [2, 3, 3, 4, 3, 4, 4, 5, 3, 4, 4, 5, 4, 5, 5, 6]
    else if h == 6 then [2, 3, 3, 4, 3, 4, 4, 5, 3, 4, 4, 5, 4, 5, 5, 6]
    else if h == 7 then [3, 4, 4, 5, 4, 5, 5, 6, 4, 5, 5, 6, 5, 6, 6, 7]
    else if h == 8 then [1, 2, 2, 3, 2, 3, 3, 4, 2, 3, 3, 4, 3, 4, 4, 5]
    else if h == 9 then [2, 3, 3, 4, 3, 4, 4, 5, 3, 4, 4, 5, 4, 5, 5, 6]
    else if h == 10 then [2, 3, 3, 4, 3, 4, 4, 5, 3, 4, 4, 5, 4, 5, 5, 6]
    else if h == 11 then [3, 4, 4, 5, 4, 5, 5, 6, 4, 5, 5, 6, 5, 6, 6, 7]
    else if h == 12 then [2, 3, 3, 4, 3, 4, 4, 5, 3, 4, 4, 5, 4, 5, 5, 6]
    else if h == 13 then [3, 4, 4, 5, 4, 5, 5, 6, 4, 5, 5, 6, 5, 6, 6, 7]
    else if h == 14 then [3, 4, 4, 5, 4, 5, 5, 6, 4, 5, 5, 6, 5, 6, 6, 7]
    else [4, 5, 5, 6, 5, 6, 6, 7, 5, 6, 6, 7, 6, 7, 7, 8]
  }

  lemma RowSizes(h: nat)
    ensures |Row(h)| == 16
  {
  }

  /** The number the table holds for a byte. */
  function Table(b: bv8): nat {
    RowSizes((b >> 4) as nat);
    NibbleFits(b & 15);
    Row((b >> 4) as nat)[(b & 15) as nat]
  }

  lemma NibbleFits(v: bv8)
    ensures v < 16 ==> v as nat < 16
  {
  }

  function LowOnes(v: bv8): nat {
    One(v, 4) + One(v, 5) + One(v, 6) + One(v, 7)
  }

  lemma HalfBytes(b: bv8)
    ensures Ones(b) == LowOnes(b >> 4) + LowOnes(b & 15)
  {
  }

  lemma FirstRow(v: bv8)
    requires v < 16
    ensures v as nat < 16 && |Row(0)| == 16 && Row(0)[v as nat] == LowOnes(v)
  {
    NibbleFits(v);
    RowSizes(0);
    if v == 0 { assert v as nat == 0; }
    if v == 1 { assert v as nat == 1; }
    if v == 2 { assert v as nat == 2; }
    if v == 3 { assert v as nat == 3; }
    if v == 4 { assert v as nat == 4; }
    if v == 5 { assert v as nat == 5; }
    if v == 6 { assert v as nat == 6; }
    if v == 7 { assert v as nat == 7; }
    if v == 8 { assert v as nat == 8; }
    if v == 9 { assert v as nat == 9; }
    if v == 10 { assert v as nat == 10; }
    if v == 11 { assert v as nat == 11; }
    if v == 12 { assert v as nat == 12; }
    if v == 13 { assert v as nat == 13; }
    if v == 14 { assert v as nat == 14; }
    if v == 15 { assert v as nat == 15; }
  }

  lemma RowsA(h: nat, l: nat)
    requires 0 <= h < 4 && l < 16
    ensures |Row(h)| == 16 && |Row(0)| == 16 && Row(h)[l] == Row(0)[h] + Row(0)[l]
  {
  }

  lemma RowsB(h: nat, l: nat)
    requires 4 <= h < 8 && l < 16
    ensures |Row(h)| == 16 && |Row(0)| == 16 && Row(h)[l] == Row(0)[h] + Row(0)[l]
  {
  }

  lemma RowsC(h: nat, l: nat)
    requires 8 <= h < 12 && l < 16
    ensures |Row(h)| == 16 && |Row(0)| == 16 && Row(h)[l] == Row(0)[h] + Row(0)[l]
  {
  }

  lemma RowsD(h: nat, l: nat)
    requires 12 <= h < 16 && l < 16
    ensures |Row(h)| == 16 && |Row(0)| == 16 && Row(h)[l] == Row(0)[h] + Row(0)[l]
  {
  }

  /** Every entry of the table is the number of ones of its byte. */
  lemma TableCounts(b: bv8)
    ensures Table(b) == Ones(b)
  {
    hide Row;
    hide Ones;
    hide LowOnes;
    NibbleFits(b >> 4);
    NibbleFits(b & 15);
    var h, l := (b >> 4) as nat, (b & 15) as nat;
    if h < 4 {
      RowsA(h, l);
    } else if h < 8 {
      RowsB(h, l);
    } else if h < 12 {
      RowsC(h, l);
    } else {
      RowsD(h, l);
    }
    FirstRow(b >> 4);
    FirstRow(b & 15);
    HalfBytes(b);
  }

  // -------------------------------------------------------------- many bytes

  function Bytes(size: nat): nat { (size + 7) / 8 }

  predicate InBits(data: seq<bv8>, i: nat) { i / 8 < |data| && Bit(data[i / 8], i % 8) }

  /** The packed set: indices below the size whose bit is on. */
  function Members(data: seq<bv8>, size: nat): set<nat> { set i: nat | i < size && InBits(data, i) }

  /** No bit beyond the size is on. A bitfield from the wire need not be so. */
  ghost predicate Clean(data: seq<bv8>, size: nat) { forall i: nat :: size <= i < 8 * |data| ==> !InBits(data, i) }

  /** Bits on among the first n. */
  ghost function CountBits(data: seq<bv8>, n: nat): nat {
    if n == 0 then 0 else CountBits(data, n - 1) + (if InBits(data, n - 1) then 1 else 0)
  }

  function CountTable(data: seq<bv8>): nat {
    if data == [] then 0 else CountTable(data[..|data| - 1]) + Table(data[|data| - 1])
  }

  lemma {:induction false} CountIsCardinality(data: seq<bv8>, n: nat)
    ensures |Members(data, n)| == CountBits(data, n)
  {
    hide InBits;
    if n == 0 {
      assert Members(data, n) == {};
    } else {
      CountIsCardinality(data, n - 1);
      if InBits(data, n - 1) {
        assert Members(data, n) == Members(data, n - 1) + {n - 1};
      } else {
        assert Members(data, n) == Members(data, n - 1);
      }
    }
  }

  lemma CountNext(data: seq<bv8>, k: nat, j: nat)
    requires k < |data| && j < 8
    ensures CountBits(data, 8 * k + j + 1) == CountBits(data, 8 * k + j) + One(data[k], j)
  {
    hide Bit;
    assert (8 * k + j) / 8 == k && (8 * k + j) % 8 == j;
  }

  lemma CountByte(data: seq<bv8>, k: nat)
    requires k < |data|
    ensures CountBits(data, 8 * k + 8) == CountBits(data, 8 * k) + Ones(data[k])
  {
    hide CountBits;
    hide One;
    CountNext(data, k, 0);
    CountNext(data, k, 1);
    CountNext(data, k, 2);
    CountNext(data, k, 3);
    CountNext(data, k, 4);
    CountNext(data, k, 5);
    CountNext(data, k, 6);
    CountNext(data, k, 7);
  }

  lemma {:induction false} CountPrefix(data: seq<bv8>, more: seq<bv8>, n: nat)
    requires n <= 8 * |data|
    ensures CountBits(data + more, n) == CountBits(data, n)
  {
    hide Bit;
    if n > 0 {
      CountPrefix(data, more, n - 1);
      assert (data + more)[(n - 1) / 8] == data[(n - 1) / 8];
    }
  }

  lemma {:induction false} CountTableCounts(data: seq<bv8>)
    ensures CountTable(data) == CountBits(data, 8 * |data|)
  {
    hide Table;
    if data != [] {
      var n := |data| - 1;
      CountTableCounts(data[..n]);
      CountByte(data, n);
      TableCounts(data[n]);
      assert data == data[..n] + [data[n]];
      CountPrefix(data[..n], [data[n]], 8 * n);
    }
  }

  lemma {:induction false} CountBeyond(data: seq<bv8>, size: nat, n: nat)
    requires size <= n
    ensures CountBits(data, n) >= CountBits(data, size)
    ensures CountBits(data, n) == CountBits(data, size) <==> forall i: nat :: size <= i < n ==> !InBits(data, i)
    decreases n - size
  {
    hide InBits;
    if size < n {
      CountBeyond(data, size, n - 1);
    }
  }

  /** The table-based count is the number of members exactly when no padding bit is on. */
  lemma CountExactIff(data: seq<bv8>, size: nat)
    requires |data| == Bytes(size)
    ensures CountTable(data) >= |Members(data, size)|
    ensures CountTable(data) == |Members(data, size)| <==> Clean(data, size)
  {
    hide InBits;
    CountTableCounts(data);
    CountIsCardinality(data, size);
    CountBeyond(data, size, 8 * |data|);
  }

  // ------------------------------------------------------- comparing byte counts

  predicate CoversByCount(a: seq<bv8>, b: seq<bv8>) {
    |a| == |b| && forall k :: 0 <= k < |a| ==> Table(a[k]) >= Table(b[k])
  }

  lemma OnesMonotone(a: bv8, b: bv8)
    requires forall j: nat :: j < 8 ==> Bit(b, j) ==> Bit(a, j)
    ensures Ones(a) >= Ones(b)
  {
    hide Bit;
    assert One(a, 0) >= One(b, 0) && One(a, 1) >= One(b, 1) && One(a, 2) >= One(b, 2) && One(a, 3) >= One(b, 3);
    assert One(a, 4) >= One(b, 4) && One(a, 5) >= One(b, 5) && One(a, 6) >= One(b, 6) && One(a, 7) >= One(b, 7);
  }

  lemma SupersetByte(a: seq<bv8>, b: seq<bv8>, size: nat, k: nat)
    requires |a| == |b| == Bytes(size) && Members(b, size) <= Members(a, size) && k < |a|
    requires 8 * k + 8 <= size || Clean(b, size)
    ensures Table(a[k]) >= Table(b[k])
  {
    hide Table;
    hide Ones;
    hide Bit;
    forall j: nat | j < 8 ensures Bit(b[k], j) ==> Bit(a[k], j) {
      assert (8 * k + j) / 8 == k && (8 * k + j) % 8 == j;
      assert InBits(b, 8 * k + j) == Bit(b[k], j) && InBits(a, 8 * k + j) == Bit(a[k], j);
      assert InBits(b, 8 * k + j) ==> 8 * k + j in Members(b, size);
      assert 8 * k + j in Members(a, size) ==> InBits(a, 8 * k + j);
    }
    OnesMonotone(a[k], b[k]);
    TableCounts(a[k]);
    TableCounts(b[k]);
  }

  /**
    A true superset passes the quick comparison exactly when its last byte does, the only
    one with padding. It does when the smaller set has no padding bits on.
  */
  lemma SupersetPasses(a: seq<bv8>, b: seq<bv8>, size: nat)
    requires |a| == |b| == Bytes(size) && Members(b, size) <= Members(a, size)
    ensures CoversByCount(a, b) <==> a == [] || Table(a[|a| - 1]) >= Table(b[|a| - 1])
    ensures Clean(b, size) ==> CoversByCount(a, b)
  {
    hide Table;
    hide Clean;
    hide Members;
    forall k | 0 <= k < |a| && (k < |a| - 1 || Clean(b, size)) ensures Table(a[k]) >= Table(b[k]) {
      SupersetByte(a, b, size, k);
    }
  }

  /** A padding bit can make a set fail the comparison with itself. */
  lemma SupersetFails()
    ensures Members([0x80], 1) == Members([0x81], 1) && !CoversByCount([0x80], [0x81])
  {
    TableCounts(0x80);
    TableCounts(0x81);
    assert InBits([0x80], 0) && InBits([0x81], 0);
    assert forall i: nat :: i in Members([0x80], 1) <==> i == 0;
    assert forall i: nat :: i in Members([0x81], 1) <==> i == 0;
  }

  /** The comparison is not a test of inclusion: different sets of equal size per byte pass it. */
  lemma PassesWithoutSuperset()
    ensures CoversByCount([0x80], [0x40]) && !(Members([0x40], 8) <= Members([0x80], 8))
  {
    TableCounts(0x80);
    TableCounts(0x40);
    assert InBits([0x40], 1) && !InBits([0x80], 1);
    assert 1 in Members([0x40], 8) && 1 !in Members([0x80], 8);
  }

  // --------------------------------------------------------------- the class

  class BitPiece {
    var size: nat
    var data: seq<bv8>

    ghost predicate Valid()
      reads this
    {
      |data| == Bytes(size)
    }

    /** The pieces in the set. */
    ghost function Set(): set<nat>
      reads this
    {
      Members(data, size)
    }

    constructor ()
      ensures Valid() && size == 0
    {
      size, data := 0, [];
    }

    method Init(n: nat)
      modifies this
      ensures Valid() && size == n && Set() == {} && Clean(data, size)
    {
      size := n;
      data := seq(if n % 8 == 0 then n / 8 else n / 8 + 1, _ => 0);
      NoneSet(data);
    }

    /** Takes a received stream as it is, padding bits included; one of another length becomes the empty set. */
    method InitStream(stream: seq<bv8>, n: nat)
      modifies this
      ensures Valid() && size == n
      ensures |stream| == Bytes(n) ==> data == stream && Set() == Members(stream, n)
      ensures |stream| != Bytes(n) ==> Set() == {} && Clean(data, size)
    {
      size := n;
      if |stream| != (if n % 8 == 0 then n / 8 else n / 8 + 1) {
        Init(n);
      } else {
        data := stream;
      }
    }

    /** Indices beyond the size count as set. */
    predicate IsSet(i: nat)
      reads this
    {
      i >= size || InBits(data, i)
    }

    lemma IsSetIff(i: nat)
      ensures IsSet(i) <==> i >= size || i in Set()
    {
    }

    method Put(i: nat, on: bool)
      requires Valid()
      modifies this`data
      ensures Valid()
      ensures i < size ==> Set() == if on then old(Set()) + {i} else old(Set()) - {i}
      ensures i >= size ==> data == old(data)
      ensures Clean(old(data), size) ==> Clean(data, size)
      ensures |data| == |old(data)| && forall k: nat :: k / 8 < |data| && k != i ==>
                InBits(data, k) == InBits(old(data), k)
    {
      if i >= size {
        return;
      }
      PutBit(data, i, on);
      data := data[i / 8 := WithBit(data[i / 8], i % 8, on)];
    }

    /** Every piece: whole bytes at once, the rest bit by bit. */
    method SetAll()
      requires Valid()
      modifies this`data
      ensures Valid()
      ensures forall i: nat :: i < size ==> i in Set()
      ensures forall k: nat :: size <= k < 8 * |data| ==> (InBits(data, k) <==> InBits(old(data), k))
    {
      ghost var was := data;
      var i := 0;
      while i < size / 8
        invariant i <= size / 8 && |data| == |was|
        invariant forall k :: 0 <= k < |data| ==> data[k] == if k < i then 0xFF else was[k]
      {
        data := data[i := 0xFF];
        i := i + 1;
      }
      FullBytes(data, size / 8);
      ghost var half := data;
      var j := size - size % 8;
      while j < size
        invariant size - size % 8 <= j <= size && |data| == |was|
        invariant forall k: nat :: k / 8 < |data| ==> InBits(data, k) == (InBits(half, k) || size - size % 8 <= k < j)
      {
        Put(j, true);
        j := j + 1;
      }
      assert forall k: nat :: size <= k < 8 * |data| ==> InBits(data, k) == InBits(was, k);
    }

    /** Whether every piece is in the set; the last byte is looked at bit by bit. */
    method IsAllSet() returns (all: bool)
      requires Valid() && size > 0
      ensures all <==> forall i: nat :: i < size ==> i in Set()
    {
      var i := 0;
      while i < |data| - 1
        invariant i <= |data| - 1
        invariant forall k :: 0 <= k < i ==> data[k] == 0xFF
      {
        if data[i] != 0xFF {
          MissingBit(data, i);
          ghost var m: nat :| 8 * i <= m < 8 * i + 8 && !InBits(data, m);
          assert m !in Set();
          return false;
        }
        i := i + 1;
      }
      FullBytes(data, i);
      var b := data[|data| - 1];
      var j := 0;
      while j < size - (|data| - 1) * 8
        invariant 0 <= j <= size - (|data| - 1) * 8
        invariant forall k: nat :: k < 8 * (|data| - 1) + j ==> InBits(data, k)
      {
        assert (8 * (|data| - 1) + j) / 8 == |data| - 1 && (8 * (|data| - 1) + j) % 8 == j;
        if !Bit(b, j) {
          assert !InBits(data, 8 * (|data| - 1) + j);
          assert 8 * (|data| - 1) + j < size && 8 * (|data| - 1) + j !in Set();
          return false;
        }
        j := j + 1;
      }
      return true;
    }

    /** Looks at all bits, padding included: wrong exactly for the empty set with a padding bit on. */
    method IsEmpty() returns (empty: bool)
      requires Valid()
      ensures empty <==> forall i: nat :: i < 8 * |data| ==> !InBits(data, i)
      ensures (empty <==> Set() == {}) <==> Set() != {} || Clean(data, size)
    {
      var i := 0;
      while i < |data|
        invariant i <= |data|
        invariant forall k :: 0 <= k < i ==> data[k] == 0
      {
        if data[i] != 0 {
          PresentBit(data, i);
          ghost var m: nat :| 8 * i <= m < 8 * i + 8 && InBits(data, m);
          assert Clean(data, size) ==> m in Set();
          return false;
        }
        i := i + 1;
      }
      NoneSet(data);
      return true;
    }

    /** Counts by table: the number of pieces exactly when no padding bit is on. */
    method GetSetedCount() returns (count: nat)
      requires Valid()
      ensures count >= |Set()|
      ensures count == |Set()| <==> Clean(data, size)
    {
      count := 0;
      var i := 0;
      while i < |data|
        invariant i <= |data| && count == CountTable(data[..i])
      {
        assert data[..i + 1][..i] == data[..i];
        count := count + Table(data[i]);
        i := i + 1;
      }
      assert data[..i] == data;
      CountExactIff(data, size);
    }

    /** How many pieces we have that the other does not; zero for sets of different sizes. */
    method Minus(other: BitPiece) returns (count: nat)
      requires Valid() && other.Valid()
      ensures count == if size == other.size then |Set() - other.Set()| else 0
    {
      hide InBits;
      count := 0;
      if size != other.size {
        return;
      }
      ghost var seen: set<nat> := {};
      assert Members(data, 0) - Members(other.data, 0) == {};
      var i := 0;
      while i < size
        invariant i <= size && seen == Members(data, i) - Members(other.data, i) && count == |seen|
      {
        MembersGrow(data, i);
        MembersGrow(other.data, i);
        if IsSet(i) && !other.IsSet(i) {
          count := count + 1;
          seen := seen + {i};
        }
        i := i + 1;
      }
    }

    /** The quick comparison by byte counts. */
    method AtLeast(other: BitPiece) returns (yes: bool)
      requires Valid() && other.Valid()
      ensures yes <==> size == other.size && CoversByCount(data, other.data)
      ensures size == other.size && other.Set() <= Set() && Clean(other.data, size) ==> yes
    {
      hide Table;
      hide InBits;
      if size == other.size && other.Set() <= Set() && Clean(other.data, size) {
        SupersetPasses(data, other.data, size);
      }
      if other.size != size {
        return false;
      }
      var i := 0;
      while i < |data|
        invariant i <= |data|
        invariant forall k :: 0 <= k < i ==> Table(data[k]) >= Table(other.data[k])
      {
        if Table(data[i]) < Table(other.data[i]) {
          return false;
        }
        i := i + 1;
      }
      return true;
    }
  }

  lemma MembersGrow(data: seq<bv8>, n: nat)
    ensures Members(data, n + 1) == Members(data, n) + if InBits(data, n) then {n} else {}
    ensures n !in Members(data, n)
  {
    hide InBits;
  }

  lemma NoneSet(data: seq<bv8>)
    requires forall k :: 0 <= k < |data| ==> data[k] == 0
    ensures forall i: nat :: !InBits(data, i)
  {
  }

  lemma FullBytes(data: seq<bv8>, n: nat)
    requires n <= |data| && forall k :: 0 <= k < n ==> data[k] == 0xFF
    ensures forall i: nat :: i < 8 * n ==> InBits(data, i)
  {
  }

  lemma SomeBitOff(b: bv8)
    requires b != 0xFF
    ensures exists j: nat :: j < 8 && !Bit(b, j)
  {
    assert !(Bit(b, 0) && Bit(b, 1) && Bit(b, 2) && Bit(b, 3) && Bit(b, 4) && Bit(b, 5) && Bit(b, 6) && Bit(b, 7));
  }

  lemma SomeBitOn(b: bv8)
    requires b != 0
    ensures exists j: nat :: j < 8 && Bit(b, j)
  {
    assert Bit(b, 0) || Bit(b, 1) || Bit(b, 2) || Bit(b, 3) || Bit(b, 4) || Bit(b, 5) || Bit(b, 6) || Bit(b, 7);
  }

  lemma MissingBit(data: seq<bv8>, k: nat)
    requires k < |data| && data[k] != 0xFF
    ensures exists i: nat :: 8 * k <= i < 8 * k + 8 && !InBits(data, i)
  {
    hide Bit;
    SomeBitOff(data[k]);
    var j: nat :| j < 8 && !Bit(data[k], j);
    assert (8 * k + j) / 8 == k && (8 * k + j) % 8 == j;
    assert !InBits(data, 8 * k + j);
  }

  lemma PresentBit(data: seq<bv8>, k: nat)
    requires k < |data| && data[k] != 0
    ensures exists i: nat :: 8 * k <= i < 8 * k + 8 && InBits(data, i)
  {
    hide Bit;
    SomeBitOn(data[k]);
    var j: nat :| j < 8 && Bit(data[k], j);
    assert (8 * k + j) / 8 == k && (8 * k + j) % 8 == j;
    assert InBits(data, 8 * k + j);
  }

  /** Setting or clearing one bit touches no other. */
  lemma PutBit(data: seq<bv8>, i: nat, on: bool)
    requires i / 8 < |data|
    ensures
      var now := data[i / 8 := WithBit(data[i / 8], i % 8, on)];
      && InBits(now, i) == on
      && forall k: nat :: k / 8 < |data| && k != i ==> InBits(now, k) == InBits(data, k)
  {
    hide Bit;
    var now := data[i / 8 := WithBit(data[i / 8], i % 8, on)];
    forall k: nat | k / 8 < |data| && k != i ensures InBits(now, k) == InBits(data, k) {
      if k / 8 == i / 8 {
        assert k % 8 != i % 8;
      }
    }
  }
}
