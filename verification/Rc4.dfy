/**
  The RC4 stream cipher of the encrypted handshake: key schedule and keystream as
  a pure machine, the class that runs it in place, and the two-direction encryptor
  that discards the first 1024 bytes of either keystream.
*/
module Rc4 {
  import opened Common

  const DISCARD: nat := 1024

  /** Bitwise exclusive or of the n low bits. */
  function XorBits(a: nat, b: nat, n: nat): (r: nat)
    decreases n, a
  {
    if n == 0 then 0 else 2 * XorBits(a / 2, b / 2, n - 1) + (a + b) % 2
  }

  function Pow2(n: nat): nat { if n == 0 then 1 else 2 * Pow2(n - 1) }

  lemma {:induction false} XorBitsFits(a: nat, b: nat, n: nat)
    ensures XorBits(a, b, n) < Pow2(n)
  {
    if n > 0 { XorBitsFits(a / 2, b / 2, n - 1); }
  }

  lemma {:induction false} XorBitsTwice(a: nat, b: nat, n: nat)
    requires a < Pow2(n)
    ensures XorBits(XorBits(a, b, n), b, n) == a
  {
    if n > 0 {
      XorBitsTwice(a / 2, b / 2, n - 1);
      LowBit(XorBits(a / 2, b / 2, n - 1), a, b);
    }
  }

  lemma LowBit(high: nat, a: nat, b: nat)
    ensures var x := 2 * high + (a + b) % 2; x / 2 == high && (x + b) % 2 == a % 2
  {
  }

  function Xor(a: byte, b: byte): byte {
    XorBitsFits(a as nat, b as nat, 8);
    assert Pow2(8) == 256;
    XorBits(a as nat, b as nat, 8) as byte
  }

  lemma XorTwice(a: byte, b: byte)
    ensures Xor(Xor(a, b), b) == a
  {
    assert Pow2(8) == 256;
    XorBitsTwice(a as nat, b as nat, 8);
  }

  lemma {:induction false} XorBitsCommute(a: nat, b: nat, n: nat)
    ensures XorBits(a, b, n) == XorBits(b, a, n)
  {
    if n > 0 { XorBitsCommute(a / 2, b / 2, n - 1); }
  }

  lemma XorCommutes(a: byte, b: byte)
    ensures Xor(a, b) == Xor(b, a)
  {
    XorBitsCommute(a as nat, b as nat, 8);
  }

  /** data under the keystream from position pos on. */
  function Cipher(stream: nat -> byte, pos: nat, data: seq<byte>): (r: seq<byte>)
    ensures |r| == |data|
  {
    seq(|data|, k requires 0 <= k < |data| => Xor(data[k], stream(pos + k)))
  }

  /** The same keystream positions undo what they did. */
  lemma CipherTwice(stream: nat -> byte, pos: nat, data: seq<byte>)
    ensures Cipher(stream, pos, Cipher(stream, pos, data)) == data
  {
    forall k | 0 <= k < |data| ensures Cipher(stream, pos, Cipher(stream, pos, data))[k] == data[k] {
      XorTwice(data[k], stream(pos + k));
    }
  }

  lemma CipherConcat(stream: nat -> byte, pos: nat, a: seq<byte>, b: seq<byte>)
    ensures Cipher(stream, pos, a + b) == Cipher(stream, pos, a) + Cipher(stream, pos + |a|, b)
  {
  }

  lemma CipherSlice(stream: nat -> byte, pos: nat, data: seq<byte>, i: nat, j: nat)
    requires i <= j <= |data|
    ensures Cipher(stream, pos, data)[i..j] == Cipher(stream, pos + i, data[i..j])
  {
  }

  // ------------------------------------------------------------------ the machine

  type Key = k: seq<byte> | k != [] witness [0]

  datatype Machine = Machine(s: seq<byte>, i: nat, j: nat) {
    ghost predicate Valid() { |s| == 256 && i < 256 && j < 256 }
  }

  function Swapped(s: seq<byte>, a: nat, b: nat): seq<byte>
    requires a < |s| && b < |s|
  {
    s[a := s[b]][b := s[a]]
  }

  /** The state after u rounds of key mixing. */
  function Mixed(key: Key, u: nat): (m: Machine)
    requires u <= 256
    ensures m.Valid()
    decreases u, key
  {
    if u == 0 then Machine(Identical(), 0, 0)
    else
      MixRound(key, Mixed(key, u - 1), u - 1)
  }

  function MixRound(key: Key, m: Machine, u: nat): (m': Machine)
    requires u < 256 && m.Valid()
    ensures m'.Valid()
  {
    var j := (m.j + m.s[u] as nat + key[u % |key|] as nat) % 256;
    Machine(Swapped(m.s, u, j), 0, j)
  }

  function Next(m: Machine): (m': Machine)
    requires m.Valid()
    ensures m'.Valid()
  {
    var i := (m.i + 1) % 256;
    var j := (m.j + m.s[i] as nat) % 256;
    Machine(Swapped(m.s, i, j), i, j)
  }

  /** The state after n keystream bytes. */
  function After(key: Key, n: nat): (m: Machine)
    ensures m.Valid()
  {
    if n == 0 then Mixed(key, 256).(i := 0, j := 0) else Next(After(key, n - 1))
  }

  lemma AfterStep(key: Key, n: nat)
    ensures After(key, n + 1) == Next(After(key, n))
  {
  }

  lemma SwapPermutes(s: seq<byte>, a: nat, b: nat)
    requires a < |s| && b < |s|
    ensures multiset(Swapped(s, a, b)) == multiset(s)
  {
  }

  lemma MixRoundPermutes(key: Key, m: Machine, u: nat)
    requires u < 256 && m.Valid()
    ensures multiset(MixRound(key, m, u).s) == multiset(m.s)
    ensures MixRound(key, m, u).j == (m.j + m.s[u] as nat + key[u % |key|] as nat) % 256
  {
    hide Swapped;
    SwapPermutes(m.s, u, (m.j + m.s[u] as nat + key[u % |key|] as nat) % 256);
  }

  lemma NextPermutes(m: Machine)
    requires m.Valid()
    ensures multiset(Next(m).s) == multiset(m.s)
  {
    hide Swapped;
    SwapPermutes(m.s, (m.i + 1) % 256, (m.j + m.s[(m.i + 1) % 256] as nat) % 256);
  }

  /** The key schedule only ever exchanges entries. */
  lemma {:induction false} MixedPermutes(key: Key, u: nat)
    requires u <= 256
    ensures multiset(Mixed(key, u).s) == multiset(Identical())
  {
    hide Identical;
    hide MixRound;
    if u > 0 {
      MixedPermutes(key, u - 1);
      MixedStep(key, u - 1);
      MixRoundPermutes(key, Mixed(key, u - 1), u - 1);
    }
  }

  lemma AfterStart(key: Key)
    ensures After(key, 0) == Mixed(key, 256).(i := 0, j := 0)
  {
  }

  /** At every moment the state is a permutation of all bytes. */
  lemma {:induction false} StatePermutes(key: Key, n: nat)
    ensures multiset(After(key, n).s) == multiset(Identical())
  {
    hide Identical;
    hide Mixed;
    hide Next;
    hide After;
    if n == 0 {
      AfterStart(key);
      MixedPermutes(key, 256);
    } else {
      StatePermutes(key, n - 1);
      AfterStep(key, n - 1);
      NextPermutes(After(key, n - 1));
    }
  }

  lemma NextIndices(m: Machine)
    requires m.Valid()
    ensures Next(m).i == (m.i + 1) % 256 && Next(m).j == (m.j + m.s[Next(m).i] as nat) % 256
  {
    hide Swapped;
  }

  lemma RoundStep(n: nat)
    ensures (n % 256 + 1) % 256 == (n + 1) % 256
  {
  }

  lemma {:induction false} IndexGoesRound(key: Key, n: nat)
    ensures After(key, n).i == n % 256
  {
    hide Mixed;
    hide Next;
    hide After;
    if n == 0 {
      AfterStart(key);
    } else {
      IndexGoesRound(key, n - 1);
      AfterStep(key, n - 1);
      NextIndices(After(key, n - 1));
      RoundStep(n - 1);
    }
  }

  /** One index goes round, the other moves on by the entry the first one meets. */
  lemma IndicesMove(key: Key, n: nat)
    ensures After(key, n).i == n % 256
    ensures After(key, n + 1).j == (After(key, n).j + After(key, n).s[(n + 1) % 256] as nat) % 256
  {
    hide Mixed;
    hide Next;
    hide After;
    IndexGoesRound(key, n);
    IndexGoesRound(key, n + 1);
    AfterStep(key, n);
    NextIndices(After(key, n));
  }

  function Output(m: Machine): byte
    requires m.Valid()
  {
    m.s[(m.s[m.i] as nat + m.s[m.j] as nat) % 256]
  }

  /** Byte n of the keystream of a key. */
  function KeyByte(key: Key, n: nat): byte
  {
    Output(After(key, n + 1))
  }

  /** The keystream from position `from` on, as a function of the distance. */
  function KeyStream(key: Key, from: nat): nat -> byte
  {
    (n: nat) => KeyByte(key, from + n)
  }

  // -------------------------------------------------------------------- the class

  function Identical(): seq<byte> {
    seq(256, t requires 0 <= t < 256 => t as byte)
  }

  method Identity(s: array<byte>)
    requires s.Length == 256
    modifies s
    ensures s[..] == Identical()
  {
    for t := 0 to 256
      invariant forall k :: 0 <= k < t ==> s[k] == k as byte
    {
      s[t] := t as byte;
    }
  }

  /** The key schedule: 256 swaps steered by the key. */
  method MixKey(s: array<byte>, key: Key) returns (j: nat)
    requires s.Length == 256 && s[..] == Identical()
    modifies s
    ensures s[..] == Mixed(key, 256).s
  {
    hide Mixed;
    MixedStart(key);
    j := 0;
    for u := 0 to 256
      invariant s[..] == Mixed(key, u).s && j == Mixed(key, u).j
    {
      MixedStep(key, u);
      ghost var before := s[..];
      j := (j + s[u] as nat + key[u % |key|] as nat) % 256;
      s[u], s[j] := s[j], s[u];
      assert s[..] == Swapped(before, u, j);
    }
  }

  lemma MixedStart(key: Key)
    ensures Mixed(key, 0) == Machine(Identical(), 0, 0)
  {
  }

  lemma MixedStep(key: Key, u: nat)
    requires u < 256
    ensures Mixed(key, u + 1) == MixRound(key, Mixed(key, u), u)
  {
  }

  class RC4 {
    var i: nat
    var j: nat
    const s: array<byte>
    ghost const key: Key
    ghost var pos: nat   // keystream bytes used so far

    ghost predicate Valid()
      reads this, s
    {
      s.Length == 256 && Machine(s[..], i, j) == After(key, pos)
    }

    constructor (key: Key)
        ensures Valid() && this.key == key && pos == 0 && fresh(s)
    {
      s := new byte[256];
      i, j := 0, 0;
      this.key := key;
      pos := 0;
      new;
      Identity(s);
      var last := MixKey(s, key);
      i, j := 0, 0;
    }

    method ProcessByte(b: byte) returns (r: byte)
      requires Valid()
      modifies this`i, this`j, this`pos, s
      ensures Valid() && pos == old(pos) + 1
      ensures r == Xor(b, KeyByte(key, old(pos)))
    {
      hide After;
      hide Xor;
      AfterStep(key, pos);
      ghost var m := After(key, pos);
      i := (i + 1) % 256;
      j := (j + s[i] as nat) % 256;
      s[i], s[j] := s[j], s[i];
      assert s[..] == Next(m).s;
      var tmp := s[(s[i] as nat + s[j] as nat) % 256];
      pos := pos + 1;
      r := Xor(tmp, b);
      XorCommutes(tmp, b);
    }

    /** Run the keystream over a buffer in place. */
    method Process(data: array<byte>)
      requires Valid() && data != s
      modifies this`i, this`j, this`pos, s, data
      ensures Valid() && pos == old(pos) + data.Length
      ensures data[..] == Cipher(KeyStream(key, old(pos)), 0, old(data[..]))
    {
      hide RC4.Valid;
      hide Xor;
      hide KeyByte;
      ghost var before, start := data[..], pos;
      for k := 0 to data.Length
        invariant Valid() && pos == start + k
        invariant data[k..] == before[k..]
        invariant data[..k] == Cipher(KeyStream(key, start), 0, before[..k])
      {
        assert data[k] == data[k..][0] == before[k];
        var b := ProcessByte(data[k]);
        data[k] := b;
      }
      assert data[..] == data[..data.Length] && before[..data.Length] == before;
    }
  }

  /** A keystream taken from a later start is the same stream at a later position. */
  lemma KeyStreamShift(key: Key, from: nat, pos: nat, data: seq<byte>)
    ensures Cipher(KeyStream(key, from + pos), 0, data) == Cipher(KeyStream(key, from), pos, data)
  {
  }

  /** What a connection uses of the keystream of a key. */
  function Stream(key: Key): nat -> byte { KeyStream(key, DISCARD) }

  /** One keystream per direction; both start 1024 bytes in. */
  class RC4Encryptor {
    const enc: RC4
    const dec: RC4

    ghost function Objects(): set<object> { {enc, enc.s, dec, dec.s} }

    /** The bytes enciphered so far; and deciphered. */
    ghost function Sent(): int reads enc { enc.pos - DISCARD }

    ghost function Received(): int reads dec { dec.pos - DISCARD }

    ghost predicate Valid()
      reads enc, enc.s, dec, dec.s
    {
      enc != dec && enc.s != dec.s && enc.Valid() && dec.Valid() && Sent() >= 0 && Received() >= 0
    }

    constructor (dk: Key, ek: Key)
      ensures Valid() && enc.key == ek && dec.key == dk && Sent() == Received() == 0
      ensures fresh(Objects())
    {
      enc := new RC4(ek);
      dec := new RC4(dk);
      new;
      var tmp := new byte[1024];
      enc.Process(tmp);
      dec.Process(tmp);
    }

    method EncryptReplace(data: array<byte>)
      requires Valid() && data !in Objects()
      modifies enc, enc.s, data
      ensures Valid() && Sent() == old(Sent()) + data.Length
      ensures data[..] == Cipher(Stream(enc.key), old(Sent()), old(data[..]))
    {
      KeyStreamShift(enc.key, DISCARD, Sent(), data[..]);
      enc.Process(data);
    }

    method Decrypt(data: array<byte>)
      requires Valid() && data !in Objects()
      modifies dec, dec.s, data
      ensures Valid() && Received() == old(Received()) + data.Length
      ensures data[..] == Cipher(Stream(dec.key), old(Received()), old(data[..]))
    {
      KeyStreamShift(dec.key, DISCARD, Received(), data[..]);
      dec.Process(data);
    }

    /** Both directions on a copy of the data. */
    method Enciphered(data: seq<byte>) returns (r: seq<byte>)
      requires Valid()
      modifies enc, enc.s
      ensures Valid() && Sent() == old(Sent()) + |data|
      ensures r == Cipher(Stream(enc.key), old(Sent()), data)
    {
      var buf := new byte[|data|](k requires 0 <= k < |data| => data[k]);
      assert buf[..] == data;
      EncryptReplace(buf);
      r := buf[..];
    }

    method Deciphered(data: seq<byte>) returns (r: seq<byte>)
      requires Valid()
      modifies dec, dec.s
      ensures Valid() && Received() == old(Received()) + |data|
      ensures r == Cipher(Stream(dec.key), old(Received()), data)
    {
      var buf := new byte[|data|](k requires 0 <= k < |data| => data[k]);
      assert buf[..] == data;
      Decrypt(buf);
      r := buf[..];
    }
  }
}
