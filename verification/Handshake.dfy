/**
  The two sides of the encrypted handshake, each as the state machine that runs
  when bytes arrive in arbitrary pieces, and the conversation between them.
*/
module Handshake {
  import opened Common
  import opened Rc4
  import opened HandshakeTerms

  datatype MseState = MSE_SEND_PUB | MSE_GOT_PUB | MSE_FOUND_VC | MSE_WAIT_PAD_D
                    | MSE_INIT | MSE_FOUND_REQ1 | MSE_WAIT_PAD_C | MSE_WAIT_IA | MSE_FINISH

  /** First position of a mark at or behind `front`, leaving at least one byte after it; |s| if none. */
  method Search(s: seq<byte>, mark: seq<byte>, front: nat) returns (pos: nat)
    requires |mark| > 0
    ensures pos < |s| ==> front <= pos && pos + |mark| < |s| && Occurs(mark, s, pos)
    ensures forall k :: front <= k < pos && k + |mark| < |s| ==> !Occurs(mark, s, k)
    ensures pos <= |s|
  {
    var i := 0;
    while i < |s| - front - |mark|
      invariant 0 <= i
      invariant forall k :: front <= k < front + i && k + |mark| < |s| ==> !Occurs(mark, s, k)
    {
      if s[front + i..front + i + |mark|] == mark {
        return front + i;
      }
      i := i + 1;
    }
    pos := |s|;
  }

  datatype Sought = Found(at: nat) | NotYet | Nowhere

  /**
    Look for a mark behind a public key in whatever a peer has sent: found at its first
    place with a byte behind it, not there yet, or overdue, since padding is limited.
  */
  method SeekMark(s: seq<byte>, mark: seq<byte>) returns (r: Sought)
    requires |mark| > 0
    ensures r.Found? ==> PUB_LEN <= r.at && r.at + |mark| < |s| && Occurs(mark, s, r.at)
    ensures r.Found? ==> forall k :: PUB_LEN <= k < r.at ==> !Occurs(mark, s, k)
    ensures !r.Found? ==> forall k :: PUB_LEN <= k && k + |mark| < |s| ==> !Occurs(mark, s, k)
    ensures r.Nowhere? ==> |s| >= 96 + 512 + |mark|
    ensures r.NotYet? ==> |s| < 96 + 512 + |mark|
  {
    if |s| < PUB_LEN + |mark| {
      return NotYet;
    }
    var pos := Search(s, mark, PUB_LEN);
    if pos == |s| {
      if |s| >= PUB_LEN + MAX_PAD + |mark| {
        return Nowhere;
      }
      return NotYet;
    }
    return Found(pos);
  }

  /** What the accepting side has chosen, for any fourteen bytes behind its padding. */
  datatype Choice = PlainText(padLen: nat) | Rc4(padLen: nat) | Unacceptable

  method ParseChoice(head: seq<byte>) returns (c: Choice)
    requires |head| == 14
    ensures
      var select, pad := FromU32(head[8..12]), FromU16(head[12..14]);
      && (c.Unacceptable? <==> select % 4 == 0 || pad > 512)
      && (c.PlainText? <==> select % 2 == 1 && pad <= 512)
      && (!c.Unacceptable? ==> c.padLen == pad)
  {
    var select := FromU32(head[8..12]);
    var plain := false;
    if select % 2 == 1 {
      plain := true;
    } else if select / 2 % 2 != 1 {
      return Unacceptable;
    }
    var padLen := FromU16(head[12..14]);
    if padLen > MAX_PAD {
      return Unacceptable;
    }
    return if plain then PlainText(padLen) else Rc4(padLen);
  }

  /** What the connecting side offers, for any six bytes behind the constant: RC4 if it may, else plain text. */
  method ParseOffer(rest: seq<byte>) returns (c: Choice)
    requires |rest| == 6
    ensures
      var provide, pad := FromU32(rest[..4]), FromU16(rest[4..6]);
      && (c.Unacceptable? <==> pad > 512)
      && (c.Rc4? <==> provide % 4 >= 2 && pad <= 512)
      && (!c.Unacceptable? ==> c.padLen == pad)
  {
    var provide := FromU32(rest[..4]);
    var padLen := FromU16(rest[4..6]);
    if padLen > MAX_PAD {
      return Unacceptable;
    }
    return if provide / 2 % 2 == 1 then Rc4(padLen) else PlainText(padLen);
  }

  /** The connecting side (A). */
  class Initiator {
    ghost const t: Terms
    const pubA: seq<byte>
    const padA: seq<byte>
    const req1: seq<byte>
    const req23: seq<byte>
    const padC: seq<byte>
    const shakeA: seq<byte>
    const encryptor: RC4Encryptor
    const encryptedVC: seq<byte>  // worked out with a copy of the acceptor's encryptor

    var state: MseState
    var recvBuffer: seq<byte>
    var sent: seq<byte>        // everything appended to the send buffer so far
    var vcPos: nat
    var padDLen: nat
    var full: bool
    ghost var encPos: nat      // keystream positions used
    ghost var decPos: nat
    var closed: bool
    ghost var rcvd: seq<byte>  // everything received so far
    ghost var app: seq<byte>   // application data sent after the handshake

    /** Where the acceptor's enciphered bytes begin. */
    ghost function Q(): nat { |t.HelloB()| }

    ghost predicate Agreed() {
      && t.Valid()
      && pubA == t.pubA && padA == t.padA && req1 == t.req1 && req23 == t.req23
      && padC == t.padC && shakeA == t.shakeA && encryptedVC == t.EncryptedVC()
    }

    ghost predicate BeforeFinish()
      requires Agreed()
      reads this
    {
      app == [] && (state != MSE_SEND_PUB ==> sent == t.WireA([]) && encPos == |t.ClearA()|)
    }

    /** The encryptor has gone as far in both keystreams as the two positions say. */
    ghost predicate InStep()
      reads this`encPos, this`decPos, encryptor.enc, encryptor.enc.s, encryptor.dec, encryptor.dec.s
    {
      && encryptor.Valid() && encryptor.enc.key == t.keyA && encryptor.dec.key == t.keyB
      && encryptor.Sent() == encPos && encryptor.Received() == decPos
    }

    ghost predicate Valid()
      reads this, encryptor.enc, encryptor.enc.s, encryptor.dec, encryptor.dec.s
      ensures Valid() ==> Agreed()
    {
      InStep() && Stands()
    }

    ghost predicate Stands()
      reads this
      ensures Stands() ==> Agreed()
    {
      Agreed() && (|rcvd| >= 20 ==> (closed <==> Refused(t.pubB))) &&
      if closed then
        state == MSE_SEND_PUB && 20 <= |rcvd| && app == [] && sent == t.HelloA()
      else match state
      case MSE_SEND_PUB =>
        app == [] && sent == t.HelloA() && encPos == 0 && decPos == 0 && recvBuffer == rcvd && |rcvd| < PUB_LEN
      case MSE_GOT_PUB =>
        BeforeFinish() && decPos == 0 && recvBuffer == rcvd && PUB_LEN <= |rcvd| <= Q() + |VC|
      case MSE_FOUND_VC =>
        BeforeFinish() && decPos == 0 && recvBuffer == rcvd && vcPos == Q() && Q() + |VC| < |rcvd| < Q() + 14
      case MSE_WAIT_PAD_D =>
        BeforeFinish() && decPos == 14 && full && padDLen == |t.padD| &&
        Q() + 14 <= |rcvd| < Q() + 14 + padDLen && recvBuffer == rcvd[Q() + 14..]
      case MSE_FINISH =>
        full && sent == t.WireA(app) && encPos == |t.ClearA()| + |app| &&
        Q() + 14 + |t.padD| <= |rcvd| && decPos == |rcvd| - Q() &&
        recvBuffer == Cipher(t.StreamB(), 14 + |t.padD|, rcvd[Q() + 14 + |t.padD|..])
      case _ => false
    }

    /** `SendPublicKey`: public key and padding go out first. */
    constructor (ghost t: Terms, pubA: seq<byte>, padA: seq<byte>, req1: seq<byte>, req23: seq<byte>,
                 padC: seq<byte>, shakeA: seq<byte>, keyA: Key, keyB: Key)
      requires t.Valid()
      requires pubA == t.pubA && padA == t.padA && req1 == t.req1 && req23 == t.req23
      requires padC == t.padC && shakeA == t.shakeA && keyA == t.keyA && keyB == t.keyB
      ensures Valid() && this.t == t && rcvd == [] && state == MSE_SEND_PUB && !closed && fresh(encryptor.Objects())
    {
      encryptor := new RC4Encryptor(keyB, keyA);
      var peerEncryptor := new RC4Encryptor(keyA, keyB);
      var mark := peerEncryptor.Enciphered(VC);
      encryptedVC := mark;
      this.t := t;
      this.pubA, this.padA, this.req1, this.req23 := pubA, padA, req1, req23;
      this.padC, this.shakeA := padC, shakeA;
      state, recvBuffer, sent := MSE_SEND_PUB, [], pubA + padA;
      vcPos, padDLen, full, encPos, decPos, closed := 0, 0, false, 0, 0, false;
      rcvd, app := [], [];
    }

    method Encrypt(data: seq<byte>) returns (r: seq<byte>)
      requires InStep()
      modifies this`encPos, encryptor.enc, encryptor.enc.s
      ensures InStep() && r == Cipher(t.StreamA(), old(encPos), data) && encPos == old(encPos) + |data|
    {
      r := encryptor.Enciphered(data);
      encPos := encPos + |data|;
    }

    method Decrypt(data: seq<byte>) returns (r: seq<byte>)
      requires InStep()
      modifies this`decPos, encryptor.dec, encryptor.dec.s
      ensures InStep() && r == Cipher(t.StreamB(), old(decPos), data) && decPos == old(decPos) + |data|
    {
      r := encryptor.Deciphered(data);
      decPos := decPos + |data|;
    }

    /** Bytes arrive: deciphered at once when the handshake is over, else handed to the current step. */
    method Receive(chunk: seq<byte>, ghost appB: seq<byte>)
      requires Valid() && !closed && rcvd + chunk <= t.WireB(appB)
      requires state == MSE_SEND_PUB ==> |rcvd + chunk| <= Q()
      modifies this, encryptor.enc, encryptor.enc.s, encryptor.dec, encryptor.dec.s
      ensures Valid() && rcvd == old(rcvd) + chunk && app == old(app)
      ensures old(sent) <= sent
      ensures old(state) == MSE_FINISH ==> state == MSE_FINISH && sent == old(sent)
    {
      hide Cipher;
      hide Terms.Valid;
      hide InStep;
      hide Refused;
      PadFacts(t);
      ghost var r := rcvd + chunk;
      if state == MSE_FINISH {
        CipherConcat(t.StreamB(), 14 + |t.padD|, rcvd[Q() + 14 + |t.padD|..], chunk);
        assert r[Q() + 14 + |t.padD|..] == rcvd[Q() + 14 + |t.padD|..] + chunk;
        rcvd := r;
        var clear := Decrypt(chunk);
        recvBuffer := recvBuffer + clear;
        return;
      }
      if state == MSE_WAIT_PAD_D {
        assert r[Q() + 14..] == rcvd[Q() + 14..] + chunk;
      }
      rcvd := r;
      recvBuffer := recvBuffer + chunk;
      match state
      case MSE_SEND_PUB => AfterSendPub(appB);
      case MSE_GOT_PUB => AfterGotPub(appB);
      case MSE_FOUND_VC => AfterFoundVC(appB);
      case MSE_WAIT_PAD_D => AfterWaitPadD();
    }

    /** Wait for the acceptor's public key, then send hashes, padding and our handshake. */
    method AfterSendPub(ghost appB: seq<byte>)
      requires InStep() && Agreed() && !closed && state == MSE_SEND_PUB && rcvd <= t.WireB(appB)
      requires app == [] && sent == t.HelloA() && encPos == 0 && decPos == 0 && recvBuffer == rcvd && |rcvd| <= Q()
      modifies this`closed, this`state, this`sent, this`encPos, encryptor.enc, encryptor.enc.s
      ensures Valid() && old(sent) <= sent
    {
      hide Cipher;
      hide Terms.Valid;
      hide InStep;
      hide Refused;
      PadFacts(t);
      HelloRefused(t, rcvd, appB);
      if |recvBuffer| >= 20 && Refused(recvBuffer) {
        closed := true;
        return;
      }
      if |recvBuffer| < PUB_LEN {
        return;
      }
      sent := sent + req1;
      sent := sent + req23;
      var buf := Encrypt(VC + [0, 0, 0, 3] + U16(|padC|) + padC);
      sent := sent + buf;
      var ia := Encrypt(U16(SHAKE_LEN));
      sent := sent + ia;
      var shake := Encrypt(shakeA);
      sent := sent + shake;
      ThirdMessage(t);
      state := MSE_GOT_PUB;
    }

    /** Look for the enciphered verification constant behind the public key. */
    method AfterGotPub(ghost appB: seq<byte>)
      requires InStep() && Agreed() && !closed && !Refused(t.pubB) && state == MSE_GOT_PUB
      requires BeforeFinish() && decPos == 0
      requires recvBuffer == rcvd && PUB_LEN <= |rcvd| && rcvd <= t.WireB(appB)
      modifies this`state, this`vcPos, this`padDLen, this`full, this`decPos, this`recvBuffer
      modifies this`closed, encryptor.dec, encryptor.dec.s
      ensures Valid()
    {
      FindVC(t, rcvd, appB);
      var sought := SeekMark(recvBuffer, encryptedVC);
      assert |rcvd| > Q() + 8 ==> Occurs(t.EncryptedVC(), rcvd, Q());
      if sought.Nowhere? {
        assert false;  // the code would close the connection
      }
      if sought.NotYet? {
        return;
      }
      assert sought.at <= Q() && Occurs(t.EncryptedVC(), rcvd, sought.at);
      vcPos := sought.at;
      state := MSE_FOUND_VC;
      AfterFoundVC(appB);
    }

    /** Read the acceptor's choice and the length of its padding. */
    method AfterFoundVC(ghost appB: seq<byte>)
      requires InStep() && Agreed() && !closed && !Refused(t.pubB) && state == MSE_FOUND_VC
      requires BeforeFinish() && decPos == 0
      requires recvBuffer == rcvd && vcPos == Q() && Q() + |VC| < |rcvd| && rcvd <= t.WireB(appB)
      modifies this`state, this`padDLen, this`full, this`decPos, this`recvBuffer, this`closed
      modifies encryptor.dec, encryptor.dec.s
      ensures Valid()
    {
      hide Cipher;
      hide Terms.Valid;
      hide InStep;
      hide Refused;
      if |recvBuffer| - vcPos < 8 + 4 + 2 {
        return;
      }
      recvBuffer := recvBuffer[vcPos..];
      state := MSE_WAIT_PAD_D;
      ReadChoice(appB);
      AfterWaitPadD();
    }

    method ReadChoice(ghost appB: seq<byte>)
      requires InStep() && Agreed() && decPos == 0
      requires Q() + 14 <= |rcvd| && rcvd <= t.WireB(appB) && recvBuffer == rcvd[Q()..]
      modifies this`padDLen, this`full, this`recvBuffer, this`decPos, encryptor.dec, encryptor.dec.s
      ensures InStep() && decPos == 14 && full && padDLen == |t.padD| && recvBuffer == rcvd[Q() + 14..]
    {
      hide Cipher;
      hide Terms.Valid;
      hide InStep;
      var swap := recvBuffer[..14];
      recvBuffer := recvBuffer[14..];
      assert swap == rcvd[Q() + 0..Q() + 14];
      var head := Decrypt(swap);
      PadFacts(t);
      ChoiceFields(t, rcvd, appB, head);
      var choice := ParseChoice(head);
      match choice
      case Rc4(padLen) =>
        full, padDLen := true, padLen;
      case PlainText(_) =>
        assert false;  // the code would go on unencrypted
      case Unacceptable =>
        assert false;  // the code would close the connection
    }

    /** Skip the padding, keeping the keystream in step; what follows is the payload. */
    method AfterWaitPadD()
      requires InStep() && Agreed() && !closed && !Refused(t.pubB) && state == MSE_WAIT_PAD_D && BeforeFinish()
      requires decPos == 14 && full && padDLen == |t.padD| && Q() + 14 <= |rcvd| && recvBuffer == rcvd[Q() + 14..]
      modifies this`state, this`decPos, this`recvBuffer, encryptor.dec, encryptor.dec.s
      ensures Valid()
    {
      hide Cipher;
      hide Terms.Valid;
      hide InStep;
      PadFacts(t);
      if padDLen == 0 {
        state := MSE_FINISH;
        recvBuffer := Decrypt(recvBuffer);
        return;
      }
      if |recvBuffer| < padDLen {
        return;
      }
      var skipped := Decrypt(recvBuffer[..padDLen]);
      recvBuffer := recvBuffer[padDLen..];
      assert recvBuffer == rcvd[Q() + 14 + |t.padD|..];
      state := MSE_FINISH;
      recvBuffer := Decrypt(recvBuffer);
    }

    /** Application data after the handshake. */
    method SendData(data: seq<byte>)
      requires Valid() && state == MSE_FINISH
      modifies this`sent, this`encPos, this`app, encryptor.enc, encryptor.enc.s
      ensures Valid() && app == old(app) + data && old(sent) <= sent
    {
      hide Cipher;
      hide Terms.Valid;
      hide InStep;
      hide Refused;
      PadFacts(t);
      WireGrows(t.HeadA(), t.StreamA(), t.ClearA() + app, data);
      assert t.ClearA() + app + data == t.ClearA() + (app + data);
      var c := Encrypt(data);
      sent := sent + c;
      app := app + data;
    }
  }

  /** The initiator's second flight completes the stream without application data. */
  lemma ThirdMessage(t: Terms)
    requires t.Valid()
    ensures var first := VC + [0, 0, 0, 3] + U16(|t.padC|) + t.padC;
            && |first| + 2 + |t.shakeA| == |t.ClearA()|
            && t.HelloA() + t.req1 + t.req23 + Cipher(t.StreamA(), 0, first)
               + Cipher(t.StreamA(), |first|, U16(SHAKE_LEN))
               + Cipher(t.StreamA(), |first| + 2, t.shakeA) == t.WireA([])
  {
    var first := VC + [0, 0, 0, 3] + U16(|t.padC|) + t.padC;
    ThreeParts(t.StreamA(), first, U16(SHAKE_LEN), t.shakeA);
    assert t.ClearA() + [] == first + U16(SHAKE_LEN) + t.shakeA;
    var a, b := Cipher(t.StreamA(), 0, first), Cipher(t.StreamA(), |first|, U16(SHAKE_LEN));
    var c := Cipher(t.StreamA(), |first| + 2, t.shakeA);
    assert t.HeadA() + a + b + c == t.HeadA() + (a + b + c);
  }

  lemma ThreeParts(stream: nat -> byte, a: seq<byte>, b: seq<byte>, c: seq<byte>)
    ensures Cipher(stream, 0, a + b + c) == Cipher(stream, 0, a) + Cipher(stream, |a|, b) + Cipher(stream, |a| + |b|, c)
  {
    CipherConcat(stream, 0, a + b, c);
    CipherConcat(stream, 0, a, b);
  }

  lemma PadFacts(t: Terms)
    requires t.Valid()
    ensures |t.pubA| == |t.pubB| == PUB_LEN && |t.req1| == |t.req23| == HASH_LEN && |t.shakeA| == SHAKE_LEN
    ensures |t.padA| < MAX_PAD && |t.padB| < MAX_PAD && |t.padC| < MAX_PAD && |t.padD| < MAX_PAD
  {
  }

  /** Any twenty bytes of the answer decide whether the initiator refuses it. */
  lemma HelloRefused(t: Terms, r: seq<byte>, appB: seq<byte>)
    requires t.Valid() && r <= t.WireB(appB)
    ensures |r| >= 20 ==> (Refused(r) <==> Refused(t.pubB))
  {
    if |r| >= 20 {
      var w := t.WireB(appB);
      assert r[..20] == w[..20] == t.pubB[..20];
      PlainByPrefix(t.pubB, r);
    }
  }

  lemma PlainByPrefix(a: seq<byte>, b: seq<byte>)
    requires |a| >= 20 && |b| >= 20 && a[..20] == b[..20]
    ensures LooksPlain(a) <==> LooksPlain(b)
    ensures Refused(a) <==> Refused(b)
  {
    forall k | 0 <= k < 20 ensures a[k] == b[k] {
      assert a[k] == a[..20][k] == b[..20][k];
    }
  }

  /** In the acceptor's stream the constant occurs exactly behind the padding. */
  lemma FindVC(t: Terms, r: seq<byte>, appB: seq<byte>)
    requires t.Valid() && r <= t.WireB(appB)
    ensures forall k :: PUB_LEN <= k <= |t.HelloB()| && k + 8 < |r| ==>
              (Occurs(t.EncryptedVC(), r, k) <==> k == |t.HelloB()|)
  {
    var clear := t.ClearB() + appB;
    CipherSlice(t.StreamB(), 0, clear, 0, 8);
    ClearBFields(t, appB);
    var c := Cipher(t.StreamB(), 0, clear);
    assert c[0..8] == t.EncryptedVC();
    assert c == c[0..8] + c[8..];
    assert t.WireB(appB) == t.pubB + t.padB + t.EncryptedVC() + c[8..];
    forall k | PUB_LEN <= k <= |t.HelloB()| && k + 8 < |r|
      ensures Occurs(t.EncryptedVC(), r, k) <==> k == |t.HelloB()|
    {
      MarkFirstOccurs(r, t.pubB, t.padB, t.EncryptedVC(), c[8..], k - PUB_LEN);
    }
  }

  lemma ChoiceFields(t: Terms, r: seq<byte>, appB: seq<byte>, head: seq<byte>)
    requires t.Valid() && r <= t.WireB(appB) && |t.HelloB()| + 14 <= |r|
    requires head == Cipher(t.StreamB(), 0, r[|t.HelloB()| + 0..|t.HelloB()| + 14])
    ensures |head| == 14 && FromU32(head[8..12]) == 2 && FromU16(head[12..14]) == |t.padD|
  {
    var clear := t.ClearB() + appB;
    DecipherSlice(r, t.HelloB(), t.StreamB(), clear, 0, 14);
    ClearBFields(t, appB);
    assert head == clear[0..14];
    assert head[8..12] == clear[8..12];
    assert head[12..14] == clear[12..14];
    U16RoundTrip(|t.padD|);
  }

  /** The accepting side (B). */
  class Acceptor {
    ghost const t: Terms
    const pubB: seq<byte>
    const padB: seq<byte>
    const req1: seq<byte>
    const req23: seq<byte>
    const padD: seq<byte>
    const encryptor: RC4Encryptor

    var state: MseState
    var plain: bool            // the opening was taken for an unencrypted handshake: no part in this protocol
    var encryption: bool
    var recvBuffer: seq<byte>
    var sent: seq<byte>
    var req1Pos: nat
    var padCLen: nat
    var iaLen: nat
    var full: bool
    ghost var encPos: nat
    ghost var decPos: nat
    ghost var rcvd: seq<byte>
    ghost var app: seq<byte>

    /** Where the initiator's first hash begins. */
    ghost function P(): nat { |t.HelloA()| }

    ghost predicate Agreed() {
      && t.Valid()
      && pubB == t.pubB && padB == t.padB && req1 == t.req1 && req23 == t.req23
      && padD == t.padD
    }

    ghost predicate HelloSent()
      reads this
    {
      app == [] && encryption && sent == t.HelloB() && encPos == 0
    }

    /** The encryptor has gone as far in both keystreams as the two positions say. */
    ghost predicate InStep()
      reads this`encPos, this`decPos, encryptor.enc, encryptor.enc.s, encryptor.dec, encryptor.dec.s
    {
      && encryptor.Valid() && encryptor.enc.key == t.keyB && encryptor.dec.key == t.keyA
      && encryptor.Sent() == encPos && encryptor.Received() == decPos
    }

    ghost predicate Valid()
      reads this, encryptor.enc, encryptor.enc.s, encryptor.dec, encryptor.dec.s
      ensures Valid() ==> Agreed()
    {
      InStep() && Stands()
    }

    ghost predicate Stands()
      reads this
      ensures Stands() ==> Agreed()
    {
      Agreed() && (|rcvd| >= SHAKE_LEN ==> (plain <==> LooksPlain(t.pubA))) &&
      if plain then
        state == MSE_INIT && SHAKE_LEN <= |rcvd| <= P() && !encryption && app == [] && sent == [] && recvBuffer == rcvd
      else match state
      case MSE_INIT =>
        app == [] && sent == [] && encPos == 0 && decPos == 0 && recvBuffer == rcvd && |rcvd| < PUB_LEN &&
        (encryption <==> |rcvd| >= SHAKE_LEN)
      case MSE_SEND_PUB =>
        HelloSent() && decPos == 0 && recvBuffer == rcvd && PUB_LEN <= |rcvd| <= P() + HASH_LEN
      case MSE_FOUND_REQ1 =>
        HelloSent() && decPos == 0 && recvBuffer == rcvd && req1Pos == P() && P() + HASH_LEN < |rcvd| < P() + 54
      case MSE_WAIT_PAD_C =>
        HelloSent() && decPos == 14 && full && padCLen == |t.padC| &&
        P() + 54 <= |rcvd| < P() + 56 + padCLen && recvBuffer == rcvd[P() + 54..]
      case MSE_WAIT_IA =>
        app == [] && encryption && full && sent == t.WireB([]) && encPos == |t.ClearB()| &&
        iaLen == SHAKE_LEN && decPos == 16 + |t.padC| &&
        P() + 56 + |t.padC| <= |rcvd| < P() + 124 + |t.padC| && recvBuffer == rcvd[P() + 56 + |t.padC|..]
      case MSE_FINISH =>
        encryption && full && sent == t.WireB(app) && encPos == |t.ClearB()| + |app| &&
        P() + 124 + |t.padC| <= |rcvd| && decPos == |rcvd| - P() - 40 &&
        recvBuffer == Cipher(t.StreamA(), 16 + |t.padC|, rcvd[P() + 56 + |t.padC|..])
      case _ => false
    }

    constructor (ghost t: Terms, pubB: seq<byte>, padB: seq<byte>, req1: seq<byte>, req23: seq<byte>,
                 padD: seq<byte>, keyA: Key, keyB: Key)
      requires t.Valid()
      requires pubB == t.pubB && padB == t.padB && req1 == t.req1 && req23 == t.req23
      requires padD == t.padD && keyA == t.keyA && keyB == t.keyB
      ensures Valid() && this.t == t && rcvd == [] && sent == [] && state == MSE_INIT && !plain
      ensures fresh(encryptor.Objects())
    {
      this.t := t;
      this.pubB, this.padB, this.req1, this.req23, this.padD := pubB, padB, req1, req23, padD;
      encryptor := new RC4Encryptor(keyA, keyB);
      state, plain, encryption, recvBuffer, sent := MSE_INIT, false, false, [], [];
      req1Pos, padCLen, iaLen, full, encPos, decPos := 0, 0, 0, false, 0, 0;
      rcvd, app := [], [];
    }

    method Encrypt(data: seq<byte>) returns (r: seq<byte>)
      requires InStep()
      modifies this`encPos, encryptor.enc, encryptor.enc.s
      ensures InStep() && r == Cipher(t.StreamB(), old(encPos), data) && encPos == old(encPos) + |data|
    {
      r := encryptor.Enciphered(data);
      encPos := encPos + |data|;
    }

    method Decrypt(data: seq<byte>) returns (r: seq<byte>)
      requires InStep()
      modifies this`decPos, encryptor.dec, encryptor.dec.s
      ensures InStep() && r == Cipher(t.StreamA(), old(decPos), data) && decPos == old(decPos) + |data|
    {
      r := encryptor.Deciphered(data);
      decPos := decPos + |data|;
    }

    method ReceivePayload(chunk: seq<byte>)
      requires Valid() && state == MSE_FINISH
      modifies this`recvBuffer, this`rcvd, this`decPos, encryptor.dec, encryptor.dec.s
      ensures Valid() && rcvd == old(rcvd) + chunk
    {
      hide Cipher;
      hide Terms.Valid;
      hide InStep;
      hide LooksPlain;
      PadFacts(t);
      ghost var r := rcvd + chunk;
      CipherConcat(t.StreamA(), 16 + |t.padC|, rcvd[P() + 56 + |t.padC|..], chunk);
      assert r[P() + 56 + |t.padC|..] == rcvd[P() + 56 + |t.padC|..] + chunk;
      rcvd := r;
      var clear := Decrypt(chunk);
      recvBuffer := recvBuffer + clear;
    }

    method Receive(chunk: seq<byte>, ghost appA: seq<byte>)
      requires Valid() && !plain && rcvd + chunk <= t.WireA(appA)
      requires state == MSE_INIT ==> |rcvd + chunk| <= P()
      modifies this, encryptor.enc, encryptor.enc.s, encryptor.dec, encryptor.dec.s
      ensures Valid() && rcvd == old(rcvd) + chunk && app == old(app)
      ensures old(sent) <= sent
      ensures old(state) == MSE_FINISH ==> state == MSE_FINISH && sent == old(sent)
    {
      hide Cipher;
      hide Terms.Valid;
      hide InStep;
      hide LooksPlain;
      PadFacts(t);
      ghost var r := rcvd + chunk;
      if state == MSE_FINISH {
        ReceivePayload(chunk);
        return;
      }
      if state == MSE_WAIT_PAD_C {
        assert r[P() + 54..] == rcvd[P() + 54..] + chunk;
      } else if state == MSE_WAIT_IA {
        assert r[P() + 56 + |t.padC|..] == rcvd[P() + 56 + |t.padC|..] + chunk;
      }
      rcvd := r;
      recvBuffer := recvBuffer + chunk;
      match state
      case MSE_INIT => CheckAcceptedShakeHand(appA);
      case MSE_SEND_PUB => AfterSendPub(appA);
      case MSE_FOUND_REQ1 => AfterFoundReq1(appA);
      case MSE_WAIT_PAD_C => AfterWaitPadC(appA);
      case MSE_WAIT_IA => AfterWaitIA();
    }

    /**
      The start decides: what looks like an unencrypted handshake is taken for one, for
      all else it is a public key, to be answered with ours.
    */
    method CheckAcceptedShakeHand(ghost appA: seq<byte>)
      requires InStep() && Agreed() && !plain && state == MSE_INIT && rcvd <= t.WireA(appA) && recvBuffer == rcvd
      requires |rcvd| <= P() && app == [] && sent == [] && encPos == 0 && decPos == 0
      requires encryption ==> |rcvd| >= SHAKE_LEN && !LooksPlain(t.pubA)
      modifies this`plain, this`encryption, this`state, this`sent
      ensures Valid()
    {
      hide Cipher;
      hide Terms.Valid;
      hide InStep;
      hide LooksPlain;
      PadFacts(t);
      HelloPlain(t, rcvd, appA);
      if !encryption {
        if |recvBuffer| < SHAKE_LEN {
          return;
        }
        if LooksPlain(recvBuffer) {
          plain := true;
          return;
        }
        encryption := true;
      }
      if |recvBuffer| < PUB_LEN {
        return;
      }
      sent := sent + (pubB + padB);
      state := MSE_SEND_PUB;
    }

    /** Look for the first hash behind the public key. */
    method AfterSendPub(ghost appA: seq<byte>)
      requires InStep() && Agreed() && !plain && !LooksPlain(t.pubA) && state == MSE_SEND_PUB
      requires HelloSent() && decPos == 0
      requires recvBuffer == rcvd && PUB_LEN <= |rcvd| && rcvd <= t.WireA(appA)
      modifies this`state, this`req1Pos, this`padCLen, this`iaLen, this`full, this`decPos
      modifies this`encPos, this`recvBuffer, this`sent, encryptor.enc, encryptor.enc.s
      modifies encryptor.dec, encryptor.dec.s
      ensures Valid() && old(sent) <= sent
    {
      hide Cipher;
      FindReq1(t, rcvd, appA);
      var sought := SeekMark(recvBuffer, req1);
      assert |rcvd| > P() + HASH_LEN ==> Occurs(t.req1, rcvd, P());
      if sought.Nowhere? {
        assert false;  // the code would close the connection
      }
      if sought.NotYet? {
        return;
      }
      assert sought.at <= P() && Occurs(t.req1, rcvd, sought.at);
      req1Pos := sought.at;
      state := MSE_FOUND_REQ1;
      AfterFoundReq1(appA);
    }

    /** The second hash names the torrent; then the constant, what A offers and its padding length. */
    method AfterFoundReq1(ghost appA: seq<byte>)
      requires InStep() && Agreed() && !plain && !LooksPlain(t.pubA) && state == MSE_FOUND_REQ1
      requires HelloSent() && decPos == 0
      requires recvBuffer == rcvd && req1Pos == P() && P() + HASH_LEN < |rcvd| && rcvd <= t.WireA(appA)
      modifies this`state, this`padCLen, this`iaLen, this`full, this`decPos, this`encPos
      modifies this`recvBuffer, this`sent, encryptor.enc, encryptor.enc.s, encryptor.dec
      modifies encryptor.dec.s
      ensures Valid() && old(sent) <= sent
    {
      hide Cipher;
      hide Terms.Valid;
      hide InStep;
      PadFacts(t);
      if |recvBuffer| - req1Pos < 20 + 20 + 8 + 4 + 2 {
        return;
      }
      recvBuffer := recvBuffer[req1Pos + 20..];
      var hashxor := recvBuffer[..20];
      recvBuffer := recvBuffer[20..];
      assert recvBuffer == rcvd[P() + 40..] && hashxor == rcvd[P() + 20..P() + 40];
      SecondHash(t, rcvd, appA);
      if hashxor != req23 {
        assert false;  // the code would close the connection
      }
      ReadOffer(appA);
      state := MSE_WAIT_PAD_C;
      AfterWaitPadC(appA);
    }

    /** Decipher the constant, what A offers and the length of its padding. */
    method ReadOffer(ghost appA: seq<byte>)
      requires InStep() && Agreed() && decPos == 0
      requires P() + 54 <= |rcvd| && rcvd <= t.WireA(appA) && recvBuffer == rcvd[P() + 40..]
      modifies this`padCLen, this`full, this`recvBuffer, this`decPos, encryptor.dec, encryptor.dec.s
      ensures InStep() && decPos == 14 && full && padCLen == |t.padC| && recvBuffer == rcvd[P() + 54..]
    {
      hide Cipher;
      hide Terms.Valid;
      hide InStep;
      PadFacts(t);
      var ency := recvBuffer[..14];
      recvBuffer := recvBuffer[14..];
      assert ency[..8] == rcvd[P() + 40 + 0..P() + 40 + 8] && ency[8..] == rcvd[P() + 40 + 8..P() + 40 + 14];
      var vc := Decrypt(ency[..8]);
      var rest := Decrypt(ency[8..]);
      OfferFields(t, rcvd, appA, vc, rest);
      if vc != VC {
        assert false;  // the code would try again a keystream of 1024 bytes further on
      }
      var offer := ParseOffer(rest);
      match offer
      case Rc4(padLen) =>
        full, padCLen := true, padLen;
      case PlainText(_) =>
        assert false;  // the code would answer and go on unencrypted
      case Unacceptable =>
        assert false;  // the code would close the connection
    }

    /** Skip A's padding, read the length of its first payload, and answer. */
    method AfterWaitPadC(ghost appA: seq<byte>)
      requires InStep() && Agreed() && !plain && !LooksPlain(t.pubA) && state == MSE_WAIT_PAD_C
      requires HelloSent() && decPos == 14
      requires full && padCLen == |t.padC| && P() + 54 <= |rcvd| && rcvd <= t.WireA(appA)
      requires recvBuffer == rcvd[P() + 54..]
      modifies this`state, this`iaLen, this`recvBuffer, this`sent
      modifies this`decPos, encryptor.dec, encryptor.dec.s, this`encPos, encryptor.enc, encryptor.enc.s
      ensures Valid() && old(sent) <= sent
    {
      hide Cipher;
      hide Terms.Valid;
      hide InStep;
      hide LooksPlain;
      PadFacts(t);
      if |recvBuffer| < padCLen + 2 {
        return;
      }
      SkipPadC(appA);
      if iaLen != 0 && iaLen != SHAKE_LEN {
        assert false;  // the code would close the connection
      }
      Answer();
      state := MSE_WAIT_IA;
      AfterWaitIA();
    }

    method SkipPadC(ghost appA: seq<byte>)
      requires InStep() && Agreed() && decPos == 14 && padCLen == |t.padC| && P() + 54 <= |rcvd|
      requires rcvd <= t.WireA(appA)
      requires recvBuffer == rcvd[P() + 54..] && padCLen + 2 <= |recvBuffer|
      modifies this`iaLen, this`recvBuffer, this`decPos, encryptor.dec, encryptor.dec.s
      ensures InStep() && decPos == 16 + |t.padC| && iaLen == SHAKE_LEN && recvBuffer == rcvd[P() + 56 + |t.padC|..]
    {
      hide Cipher;
      hide Terms.Valid;
      hide InStep;
      PadFacts(t);
      var padc := Decrypt(recvBuffer[..padCLen + 2]);
      assert recvBuffer[..padCLen + 2] == rcvd[P() + 40 + 14..P() + 40 + 16 + |t.padC|];
      recvBuffer := recvBuffer[padCLen + 2..];
      ReadPayloadLength(t, rcvd, appA, padc);
      iaLen := FromU16(padc[padCLen..padCLen + 2]);
    }

    /** The constant, the chosen encryption and padding of our own. */
    method Answer()
      requires InStep() && Agreed() && HelloSent() && full
      modifies this`sent, this`encPos, encryptor.enc, encryptor.enc.s
      ensures InStep() && sent == t.WireB([]) && encPos == |t.ClearB()| && old(sent) <= sent
    {
      hide Cipher;
      hide Terms.Valid;
      hide InStep;
      PadFacts(t);
      var crypto_select: byte := 1;
      if full {
        crypto_select := 2;
      }
      var rep := Encrypt(VC + [0, 0, 0, crypto_select] + U16(|padD|) + padD);
      FourthMessage(t);
      sent := sent + rep;
    }

    /** Once the whole payload is there, decipher all that has arrived. */
    method AfterWaitIA()
      requires InStep() && Agreed() && !plain && !LooksPlain(t.pubA) && state == MSE_WAIT_IA
      requires app == [] && encryption && full && sent == t.WireB([]) && encPos == |t.ClearB()|
      requires iaLen == SHAKE_LEN && decPos == 16 + |t.padC|
      requires P() + 56 + |t.padC| <= |rcvd| && recvBuffer == rcvd[P() + 56 + |t.padC|..]
      modifies this`state, this`decPos, this`recvBuffer, encryptor.dec, encryptor.dec.s
      ensures Valid()
    {
      hide Cipher;
      hide Terms.Valid;
      hide InStep;
      PadFacts(t);
      if |recvBuffer| < iaLen {
        return;
      }
      recvBuffer := Decrypt(recvBuffer);
      state := MSE_FINISH;
    }

    method SendData(data: seq<byte>)
      requires Valid() && state == MSE_FINISH
      modifies this`sent, this`encPos, this`app, encryptor.enc, encryptor.enc.s
      ensures Valid() && app == old(app) + data && old(sent) <= sent
    {
      hide Cipher;
      hide Terms.Valid;
      hide InStep;
      PadFacts(t);
      WireGrows(t.HelloB(), t.StreamB(), t.ClearB() + app, data);
      assert t.ClearB() + app + data == t.ClearB() + (app + data);
      var c := Encrypt(data);
      sent := sent + c;
      app := app + data;
    }
  }

  /** Any twenty bytes of the opening decide whether the acceptor takes it for a plain handshake. */
  lemma HelloPlain(t: Terms, r: seq<byte>, appA: seq<byte>)
    requires t.Valid() && r <= t.WireA(appA)
    ensures |r| >= 20 ==> (LooksPlain(r) <==> LooksPlain(t.pubA))
  {
    if |r| >= 20 {
      var w := t.WireA(appA);
      assert r[..20] == w[..20] == t.pubA[..20];
      PlainByPrefix(t.pubA, r);
    }
  }

  lemma FindReq1(t: Terms, r: seq<byte>, appA: seq<byte>)
    requires t.Valid() && r <= t.WireA(appA)
    ensures forall k :: PUB_LEN <= k <= |t.HelloA()| && k + HASH_LEN < |r| ==>
              (Occurs(t.req1, r, k) <==> k == |t.HelloA()|)
  {
    var c := Cipher(t.StreamA(), 0, t.ClearA() + appA);
    assert t.WireA(appA) == t.pubA + t.padA + t.req1 + (t.req23 + c);
    forall k | PUB_LEN <= k <= |t.HelloA()| && k + HASH_LEN < |r|
      ensures Occurs(t.req1, r, k) <==> k == |t.HelloA()|
    {
      MarkFirstOccurs(r, t.pubA, t.padA, t.req1, t.req23 + c, k - PUB_LEN);
    }
  }

  lemma SecondHash(t: Terms, r: seq<byte>, appA: seq<byte>)
    requires t.Valid() && r <= t.WireA(appA) && |t.HelloA()| + 40 <= |r|
    ensures r[|t.HelloA()| + 20..|t.HelloA()| + 40] == t.req23
  {
    var w := t.WireA(appA);
    assert r == w[..|r|];
    assert w[|t.HelloA()| + 20..|t.HelloA()| + 40] == t.req23;
  }

  lemma OfferFields(t: Terms, r: seq<byte>, appA: seq<byte>, vc: seq<byte>, rest: seq<byte>)
    requires t.Valid() && r <= t.WireA(appA) && |t.HelloA()| + 54 <= |r|
    requires vc == Cipher(t.StreamA(), 0, r[|t.HelloA()| + 40 + 0..|t.HelloA()| + 40 + 8])
    requires rest == Cipher(t.StreamA(), 8, r[|t.HelloA()| + 40 + 8..|t.HelloA()| + 40 + 14])
    ensures vc == VC && |rest| == 6 && FromU32(rest[..4]) == 3 && FromU16(rest[4..6]) == |t.padC|
  {
    var clear := t.ClearA() + appA;
    assert |t.HeadA()| == |t.HelloA()| + 40;
    DecipherSlice(r, t.HeadA(), t.StreamA(), clear, 0, 8);
    DecipherSlice(r, t.HeadA(), t.StreamA(), clear, 8, 14);
    ClearAFields(t, appA);
    assert rest == clear[8..14];
    assert rest[..4] == clear[8..12];
    assert rest[4..6] == clear[12..14];
    U16RoundTrip(|t.padC|);
  }

  lemma ReadPayloadLength(t: Terms, r: seq<byte>, appA: seq<byte>, padc: seq<byte>)
    requires t.Valid() && r <= t.WireA(appA) && |t.HelloA()| + 56 + |t.padC| <= |r|
    requires padc == Cipher(t.StreamA(), 14, r[|t.HelloA()| + 40 + 14..|t.HelloA()| + 40 + 16 + |t.padC|])
    ensures |padc| == |t.padC| + 2 && FromU16(padc[|t.padC|..|t.padC| + 2]) == SHAKE_LEN
  {
    var clear := t.ClearA() + appA;
    assert |t.HeadA()| == |t.HelloA()| + 40;
    DecipherSlice(r, t.HeadA(), t.StreamA(), clear, 14, 16 + |t.padC|);
    ClearAFields(t, appA);
    assert padc[|t.padC|..|t.padC| + 2] == clear[14 + |t.padC|..16 + |t.padC|];
    U16RoundTrip(SHAKE_LEN);
  }

  lemma FourthMessage(t: Terms)
    requires t.Valid()
    ensures var reply := VC + [0, 0, 0, 2] + U16(|t.padD|) + t.padD;
            |reply| == |t.ClearB()| && t.HelloB() + Cipher(t.StreamB(), 0, reply) == t.WireB([])
  {
    assert t.ClearB() + [] == VC + [0, 0, 0, 2] + U16(|t.padD|) + t.padD;
  }

  /** Both sides of one connection: the network delivers what was sent, in order, in pieces of any size. */
  class Conversation {
    const a: Initiator
    const b: Acceptor
    var reachedA: nat   // bytes of the other side's stream delivered so far
    var reachedB: nat

    ghost predicate Valid()
      reads this, a, b, a.encryptor.Objects(), b.encryptor.Objects()
    {
      && a.encryptor.Objects() !! b.encryptor.Objects()
      && reachedA == |a.rcvd| && reachedB == |b.rcvd|
      && a.t == b.t && a.Valid() && b.Valid()
      && b.rcvd <= a.sent && a.rcvd <= b.sent
    }

    constructor (a: Initiator, b: Acceptor)
      requires a.Valid() && b.Valid() && a.t == b.t && a.rcvd == [] && b.rcvd == []
      requires a.encryptor.Objects() !! b.encryptor.Objects()
      ensures Valid() && this.a == a && this.b == b
    {
      this.a, this.b, this.reachedA, this.reachedB := a, b, 0, 0;
    }

    /** The next n bytes of A's stream reach B. */
    method DeliverToB(n: nat)
      requires Valid() && !b.plain && reachedB + n <= |a.sent|
      modifies this`reachedB, b, b.encryptor.Objects()
      ensures Valid() && reachedB == old(reachedB) + n
    {
      hide Cipher;
      hide Terms.Valid;
      hide RC4Encryptor.Valid;
      hide Initiator.InStep;
      hide Acceptor.InStep;
      hide Initiator.Stands;
      hide Acceptor.Stands;
      var chunk := a.sent[reachedB..reachedB + n];
      assert b.rcvd + chunk == a.sent[..reachedB + n];
      SentIsWireA(a);
      HelloFirstA(a);
      HelloFirstB(b);
      b.Receive(chunk, a.app);
      reachedB := reachedB + n;
    }

    /** The next n bytes of B's stream reach A. */
    method DeliverToA(n: nat)
      requires Valid() && !a.closed && reachedA + n <= |b.sent|
      modifies this`reachedA, a, a.encryptor.Objects()
      ensures Valid() && reachedA == old(reachedA) + n
    {
      hide Cipher;
      hide Terms.Valid;
      hide RC4Encryptor.Valid;
      hide Initiator.InStep;
      hide Acceptor.InStep;
      hide Initiator.Stands;
      hide Acceptor.Stands;
      var chunk := b.sent[reachedA..reachedA + n];
      assert a.rcvd + chunk == b.sent[..reachedA + n];
      SentIsWireB(b);
      HelloFirstA(a);
      HelloFirstB(b);
      a.Receive(chunk, b.app);
      reachedA := reachedA + n;
    }

    method SendFromA(data: seq<byte>)
      requires Valid() && a.state == MSE_FINISH
      modifies a, a.encryptor.Objects()
      ensures Valid() && a.app == old(a.app) + data && a.state == MSE_FINISH
    {
      hide Cipher;
      hide Terms.Valid;
      hide RC4Encryptor.Valid;
      hide Initiator.InStep;
      hide Acceptor.InStep;
      hide Initiator.Stands;
      hide Acceptor.Stands;
      a.SendData(data);
    }

    method SendFromB(data: seq<byte>)
      requires Valid() && b.state == MSE_FINISH
      modifies b, b.encryptor.Objects()
      ensures Valid() && b.app == old(b.app) + data && b.state == MSE_FINISH
    {
      hide Cipher;
      hide Terms.Valid;
      hide RC4Encryptor.Valid;
      hide Initiator.InStep;
      hide Acceptor.InStep;
      hide Initiator.Stands;
      hide Acceptor.Stands;
      b.SendData(data);
    }

    /** Nothing is left to deliver; a side that has left the protocol takes nothing more. */
    ghost predicate Quiet()
      reads this, a, b
    {
      (b.plain || b.rcvd == a.sent) && (a.closed || a.rcvd == b.sent)
    }

    /**
      Whenever nothing is left to deliver, the handshake has come to its end. B has taken
      the opening for an unencrypted handshake, and says nothing in this protocol, exactly
      when A's public key looks like one. Otherwise A has closed exactly when B's public key
      starts like a message A refuses. In all other cases both sides have finished, the
      keystreams are in step in both directions, and each side holds exactly the other's
      clear text: for B it starts with A's handshake.
    */
    lemma DeliveredMeansFinished()
      requires Valid() && Quiet()
      ensures b.plain <==> LooksPlain(a.t.pubA)
      ensures b.plain ==> b.sent == [] && a.rcvd == [] && a.state == MSE_SEND_PUB
      ensures a.closed <==> !b.plain && Refused(a.t.pubB)
      ensures !b.plain && !a.closed ==>
        && a.state == MSE_FINISH && b.state == MSE_FINISH
        && a.encryptor.Sent() == b.encryptor.Received() && b.encryptor.Sent() == a.encryptor.Received()
        && b.recvBuffer == a.t.shakeA + a.app && a.recvBuffer == b.app
    {
      hide LooksPlain;
      hide Cipher;
      hide Terms.Valid;
      hide Refused;
      PadFacts(a.t);
      WireLengths(a.t, a.app, b.app);
      WireLengths(a.t, [], []);
      ReadBack(a.t, a.app, b.app);
    }

    /** In every reachable state, finished or not, what B has deciphered is a prefix of what A meant. */
    lemma DecipheredIsPrefix()
      requires Valid()
      ensures b.state == MSE_FINISH ==> b.recvBuffer <= a.t.shakeA + a.app && |b.recvBuffer| >= SHAKE_LEN
      ensures a.state == MSE_FINISH ==> a.recvBuffer <= b.app
      ensures a.closed || b.plain ==> b.state != MSE_FINISH && a.state != MSE_FINISH
    {
      hide Cipher;
      hide Terms.Valid;
      PadFacts(a.t);
      SentIsWireA(a);
      SentIsWireB(b);
      if b.state == MSE_FINISH {
        PayloadOfA(a.t, b.rcvd, a.app);
      }
      if a.state == MSE_FINISH {
        PayloadOfB(a.t, a.rcvd, b.app);
      }
    }
  }

  lemma SentIsWireA(a: Initiator)
    requires a.Valid()
    ensures a.sent <= a.t.WireA(a.app)
    ensures a.state == MSE_SEND_PUB <==> |a.sent| == |a.t.HelloA()|
  {
  }

  lemma SentIsWireB(b: Acceptor)
    requires b.Valid()
    ensures b.sent <= b.t.WireB(b.app)
    ensures b.state in {MSE_SEND_PUB, MSE_FOUND_REQ1, MSE_WAIT_PAD_C} ==> b.sent == b.t.HelloB()
    ensures b.state == MSE_INIT ==> b.sent == []
  {
  }

  /** Each side sends no more than its hello before it has the other's. */
  lemma HelloFirstA(a: Initiator)
    requires a.Valid()
    ensures a.rcvd == [] || a.state == MSE_SEND_PUB ==> a.sent == a.t.HelloA()
  {
  }

  lemma HelloFirstB(b: Acceptor)
    requires b.Valid()
    ensures b.state == MSE_INIT ==> b.sent == []
    ensures |b.rcvd| <= |b.t.HelloA()| ==> |b.sent| <= |b.t.HelloB()|
  {
  }

  lemma WireLengths(t: Terms, appA: seq<byte>, appB: seq<byte>)
    requires t.Valid()
    ensures |t.WireA(appA)| == |t.HelloA()| + 124 + |t.padC| + |appA|
    ensures |t.WireB(appB)| == |t.HelloB()| + 14 + |t.padD| + |appB|
  {
  }

  /** What lies behind the initiator's padding in any received prefix is its handshake and what follows. */
  lemma PayloadOfA(t: Terms, r: seq<byte>, appA: seq<byte>)
    requires t.Valid() && r <= t.WireA(appA) && |t.HelloA()| + 56 + |t.padC| <= |r|
    ensures Cipher(t.StreamA(), 16 + |t.padC|, r[|t.HelloA()| + 56 + |t.padC|..]) <= t.shakeA + appA
  {
    hide Cipher;
    hide Terms.Valid;
    PadFacts(t);
    var clear := t.ClearA() + appA;
    assert |t.HeadA()| == |t.HelloA()| + 40;
    DecipherSlice(r, t.HeadA(), t.StreamA(), clear, 16 + |t.padC|, |r| - |t.HeadA()|);
    ClearAFields(t, appA);
    assert r[|t.HelloA()| + 56 + |t.padC|..] == r[|t.HeadA()| + (16 + |t.padC|)..|t.HeadA()| + (|r| - |t.HeadA()|)];
    assert clear[16 + |t.padC|..|r| - |t.HeadA()|] <= clear[16 + |t.padC|..];
  }

  lemma PayloadOfB(t: Terms, r: seq<byte>, appB: seq<byte>)
    requires t.Valid() && r <= t.WireB(appB) && |t.HelloB()| + 14 + |t.padD| <= |r|
    ensures Cipher(t.StreamB(), 14 + |t.padD|, r[|t.HelloB()| + 14 + |t.padD|..]) <= appB
  {
    var clear := t.ClearB() + appB;
    DecipherSlice(r, t.HelloB(), t.StreamB(), clear, 14 + |t.padD|, |r| - |t.HelloB()|);
    ClearBFields(t, appB);
    assert r[|t.HelloB()| + 14 + |t.padD|..] == r[|t.HelloB()| + (14 + |t.padD|)..|t.HelloB()| + (|r| - |t.HelloB()|)];
    assert clear[14 + |t.padD|..|r| - |t.HelloB()|] <= clear[14 + |t.padD|..];
  }

  lemma ReadBack(t: Terms, appA: seq<byte>, appB: seq<byte>)
    requires t.Valid()
    ensures var w := t.WireA(appA);
            |t.HelloA()| + 56 + |t.padC| <= |w| &&
            Cipher(t.StreamA(), 16 + |t.padC|, w[|t.HelloA()| + 56 + |t.padC|..]) == t.shakeA + appA
    ensures var w := t.WireB(appB);
            |t.HelloB()| + 14 + |t.padD| <= |w| &&
            Cipher(t.StreamB(), 14 + |t.padD|, w[|t.HelloB()| + 14 + |t.padD|..]) == appB
  {
    PayloadOfA(t, t.WireA(appA), appA);
    PayloadOfB(t, t.WireB(appB), appB);
    WireLengths(t, appA, appB);
  }
}
