/**
  What two endpoints of an encrypted handshake agree on and choose, and the two
  byte streams that follow from it. The key exchange itself is taken as done: the
  two keys and the hashes are given.
*/
module HandshakeTerms {
  import opened Common
  import opened Rc4

  const PUB_LEN: nat := 96
  const HASH_LEN: nat := 20
  const SHAKE_LEN: nat := 68
  const MAX_PAD: nat := 512

  const VC: seq<byte> := [0, 0, 0, 0, 0, 0, 0, 0]

  /** "bittorrent protocol" */
  const PROTOCOL: seq<byte> :=
    [98, 105, 116, 116, 111, 114, 114, 101, 110, 116, 32, 112, 114, 111, 116, 111, 99, 111, 108]

  function Lower(b: byte): byte { if 65 <= b <= 90 then b + 32 else b }

  /** The nineteen bytes behind the first spell the protocol name, letter case ignored. */
  predicate NamesProtocol(s: seq<byte>)
    requires |s| >= 20
  {
    forall k :: 0 <= k < 19 ==> Lower(s[1 + k]) == PROTOCOL[k]
  }

  /** The buffer starts like an unencrypted handshake: the acceptor's test. */
  predicate LooksPlain(s: seq<byte>) { |s| >= 20 && s[0] == 19 && NamesProtocol(s) }

  /**
    The initiator's test on the answer. It is meant for the same purpose but has the
    comparison the wrong way round: a first byte of 19 is refused unless the name follows.
  */
  predicate Refused(s: seq<byte>) { |s| >= 20 && s[0] == 19 && !NamesProtocol(s) }

  const NAME: string := "BitTorrent protocol"

  /** The byte is this character, letters in either case. */
  ghost predicate Spells(b: byte, c: char) {
    || b as int == c as int
    || ('a' <= c <= 'z' && b as int + 32 == c as int)
    || ('A' <= c <= 'Z' && b as int == c as int + 32)
  }

  lemma LetterIff(b: byte, k: nat)
    requires k < 19
    ensures Lower(b) == PROTOCOL[k] <==> Spells(b, NAME[k])
  {
    assert NAME == ['B', 'i', 't', 'T', 'o', 'r', 'r', 'e', 'n', 't', ' ', 'p', 'r', 'o', 't', 'o', 'c', 'o', 'l'];
  }

  lemma NamesProtocolIff(s: seq<byte>)
    requires |s| >= 20
    ensures NamesProtocol(s) <==> forall k :: 0 <= k < 19 ==> Spells(s[1 + k], NAME[k])
  {
    hide Lower;
    hide Spells;
    forall k | 0 <= k < 19 ensures Lower(s[1 + k]) == PROTOCOL[k] <==> Spells(s[1 + k], NAME[k]) {
      LetterIff(s[1 + k], k);
    }
  }

  /** What is taken for an unencrypted handshake: its length byte and its name, in any mixture of cases. */
  lemma LooksPlainIff(s: seq<byte>)
    ensures LooksPlain(s) <==> |s| >= 20 && s[0] == 19 && forall k :: 0 <= k < 19 ==> Spells(s[1 + k], NAME[k])
  {
    if |s| >= 20 {
      NamesProtocolIff(s);
    }
  }

  /** And what the initiator refuses: the length byte with any other name. */
  lemma RefusedIff(s: seq<byte>)
    ensures Refused(s) <==> |s| >= 20 && s[0] == 19 && !forall k :: 0 <= k < 19 ==> Spells(s[1 + k], NAME[k])
  {
    if |s| >= 20 {
      NamesProtocolIff(s);
    }
  }

  /** Two bytes in network order. */
  function U16(n: nat): (s: seq<byte>)
    requires n < 65536
    ensures |s| == 2
  {
    [(n / 256) as byte, (n % 256) as byte]
  }

  function FromU16(s: seq<byte>): nat
    requires |s| == 2
  {
    s[0] as nat * 256 + s[1] as nat
  }

  lemma U16RoundTrip(n: nat)
    requires n < 65536
    ensures FromU16(U16(n)) == n
  {
  }

  function FromU32(s: seq<byte>): nat
    requires |s| == 4
  {
    FromU16(s[..2]) * 65536 + FromU16(s[2..])
  }

  /** The first byte is the more significant one. */
  lemma NetworkOrder(n: nat)
    requires n < 256
    ensures U16(n) == [0, n as byte]
    ensures FromU16([n as byte, 0]) == 256 * n && FromU32([0, n as byte, 0, 0]) == 65536 * n
  {
  }

  predicate Occurs(needle: seq<byte>, s: seq<byte>, at: nat) {
    at + |needle| <= |s| && s[at..at + |needle|] == needle
  }

  datatype Terms = Terms(
    pubA: seq<byte>, padA: seq<byte>,     // initiator's public key and padding
    pubB: seq<byte>, padB: seq<byte>,     // acceptor's
    req1: seq<byte>, req23: seq<byte>,    // HASH('req1', S) and HASH('req2', SKEY) xor HASH('req3', S)
    keyA: Key, keyB: Key,                 // what the initiator enciphers with, and the acceptor
    padC: seq<byte>, padD: seq<byte>,
    shakeA: seq<byte>                     // the initiator's handshake message
  ) {
    function StreamA(): nat -> byte { Stream(keyA) }

    function StreamB(): nat -> byte { Stream(keyB) }

    /** The verification constant as the acceptor sends it. */
    function EncryptedVC(): seq<byte> { Cipher(StreamB(), 0, VC) }

    ghost predicate Valid() {
      && |pubA| == |pubB| == 96 && |req1| == |req23| == 20 && |shakeA| == 68
      && |padA| < 512 && |padB| < 512 && |padC| < 512 && |padD| < 512
      // neither synchronisation mark occurs by accident before its place
      && (forall i :: 0 <= i < |padA| ==> !Occurs(req1, padA + req1, i))
      && (forall i :: 0 <= i < |padB| ==> !Occurs(EncryptedVC(), padB + EncryptedVC(), i))
    }

    /** What the initiator enciphers before any application data. */
    function ClearA(): (s: seq<byte>)
      requires |padC| < MAX_PAD && |shakeA| == SHAKE_LEN
      ensures |s| == 84 + |padC|
    {
      VC + [0, 0, 0, 3] + U16(|padC|) + padC + U16(SHAKE_LEN) + shakeA
    }

    /** What the acceptor enciphers before any application data. */
    function ClearB(): (s: seq<byte>)
      requires |padD| < MAX_PAD
      ensures |s| == 14 + |padD|
    {
      VC + [0, 0, 0, 2] + U16(|padD|) + padD
    }

    function HelloA(): seq<byte> { pubA + padA }

    function HelloB(): seq<byte> { pubB + padB }

    /** Everything in the initiator's stream that is not enciphered. */
    function HeadA(): seq<byte> { HelloA() + req1 + req23 }

    ghost function WireA(app: seq<byte>): seq<byte>
      requires Valid()
    {
      HeadA() + Cipher(StreamA(), 0, ClearA() + app)
    }

    ghost function WireB(app: seq<byte>): seq<byte>
      requires Valid()
    {
      HelloB() + Cipher(StreamB(), 0, ClearB() + app)
    }
  }

  /** Terms of the right sizes without padding in front of a mark are valid, whatever the keys, hashes and messages. */
  lemma UnpaddedIsValid(t: Terms)
    requires |t.pubA| == |t.pubB| == PUB_LEN && |t.req1| == |t.req23| == HASH_LEN && |t.shakeA| == SHAKE_LEN
    requires t.padA == t.padB == [] && |t.padC| < MAX_PAD && |t.padD| < MAX_PAD
    ensures t.Valid()
  {
  }

  // ------------------------------------------------------------- stream lemmas

  /** The part of a stream prefix past its head is a prefix of the enciphered text. */
  lemma PastHead(r: seq<byte>, head: seq<byte>, stream: nat -> byte, clear: seq<byte>)
    requires r <= head + Cipher(stream, 0, clear) && |head| <= |r|
    ensures r[|head|..] == Cipher(stream, 0, clear[..|r| - |head|])
  {
    CipherSlice(stream, 0, clear, 0, |r| - |head|);
    var w := head + Cipher(stream, 0, clear);
    assert r == w[..|r|];
    assert w[..|r|][|head|..] == Cipher(stream, 0, clear)[..|r| - |head|];
    assert clear[0..|r| - |head|] == clear[..|r| - |head|];
    assert Cipher(stream, 0, clear)[0..|r| - |head|] == Cipher(stream, 0, clear)[..|r| - |head|];
  }

  /** Deciphering a slice of it at the right position gives the slice of the clear text. */
  lemma DecipherSlice(r: seq<byte>, head: seq<byte>, stream: nat -> byte, clear: seq<byte>, i: nat, j: nat)
    requires r <= head + Cipher(stream, 0, clear) && |head| + j <= |r| && i <= j
    ensures j <= |clear| && Cipher(stream, i, r[|head| + i..|head| + j]) == clear[i..j]
  {
    PastHead(r, head, stream, clear);
    var n := |r| - |head|;
    var c := Cipher(stream, 0, clear[..n]);
    assert r[|head| + i..|head| + j] == r[|head|..][i..j];
    CipherSlice(stream, 0, clear[..n], i, j);
    assert clear[..n][i..j] == clear[i..j];
    CipherTwice(stream, i, clear[i..j]);
  }

  /** More application data only extends a stream. */
  lemma WireGrows(head: seq<byte>, stream: nat -> byte, clear: seq<byte>, more: seq<byte>)
    ensures head + Cipher(stream, 0, clear) + Cipher(stream, |clear|, more) == head + Cipher(stream, 0, clear + more)
  {
    CipherConcat(stream, 0, clear, more);
  }

  /** The clear text of the initiator, field by field. */
  lemma ClearAFields(t: Terms, app: seq<byte>)
    requires t.Valid()
    ensures var c := t.ClearA() + app;
            && c[0..8] == VC && c[8..12] == [0, 0, 0, 3] && c[12..14] == U16(|t.padC|)
            && c[14 + |t.padC|..16 + |t.padC|] == U16(SHAKE_LEN)
            && c[16 + |t.padC|..] == t.shakeA + app
  {
  }

  lemma ClearBFields(t: Terms, app: seq<byte>)
    requires t.Valid()
    ensures var c := t.ClearB() + app;
            && c[0..8] == VC && c[8..12] == [0, 0, 0, 2] && c[12..14] == U16(|t.padD|)
            && c[14 + |t.padD|..] == app
  {
  }

  /** Where a mark is found in a stream `front + pad + mark + rest`, looking behind the front. */
  lemma MarkFirstOccurs(r: seq<byte>, front: seq<byte>, pad: seq<byte>, mark: seq<byte>, rest: seq<byte>, i: nat)
    requires r <= front + pad + mark + rest
    requires forall k :: 0 <= k < |pad| ==> !Occurs(mark, pad + mark, k)
    requires i <= |pad| && |front| + i + |mark| <= |r|
    ensures Occurs(mark, r, |front| + i) <==> i == |pad|
  {
    var w := front + pad + mark + rest;
    assert r == w[..|r|];
    var at := |front| + i;
    assert r[at..at + |mark|] == w[at..at + |mark|];
    if i < |pad| {
      assert !Occurs(mark, pad + mark, i);
      assert w[at..at + |mark|] == (pad + mark)[i..i + |mark|];
    } else {
      assert w[at..at + |mark|] == mark;
    }
  }
}
