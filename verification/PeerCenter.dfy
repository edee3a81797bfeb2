/**
  Link accounting: which sessions are connecting to, or connected with, which
  peer, and the counters kept per peer, per session and for the whole download.
*/
module PeerCenter {
  import opened Common

  /** Addresses are spread by moving their bytes, so neighbours do not sort together. */
  function HashIP(ip: bv32): bv32 {
    ((ip & 0xFF000000) >> 24) + ((ip & 0x000000FF) << 8) + ((ip & 0x0000FF00) << 16) + (ip & 0x00FF0000)
  }

  function UnhashIP(h: bv32): bv32 {
    ((h & 0x000000FF) << 24) + ((h & 0x0000FF00) >> 8) + ((h & 0xFF000000) >> 16) + (h & 0x00FF0000)
  }

  lemma HashIPInverts(ip: bv32)
    ensures UnhashIP(HashIP(ip)) == ip
  {
  }

  /** Two addresses never share an entry. */
  lemma HashIPInjective(a: bv32, b: bv32)
    requires HashIP(a) == HashIP(b)
    ensures a == b
  {
    HashIPInverts(a);
    HashIPInverts(b);
  }

  /** The key of an address in the peer map. */
  datatype Key = Key(hash: bv32)

  function KeyOf(ip: bv32): Key { Key(HashIP(ip)) }

  /** What is kept per address. The two session bit masks are sets of session numbers. */
  datatype PeerDetail = PeerDetail(
    ip: bv32,
    port: nat,
    connective: int,          // 0 unknown, positive after successes, negative after failures
    nextTry: nat,
    bannedTime: nat,
    outLinkCount: nat,
    inLinkCount: nat,
    linkingRecord: set<nat>,  // sessions that are connecting
    linkRecord: set<nat>,     // sessions with an established outgoing link
    linkByCount: nat,
    byteGot: nat,
    byteSend: nat
  ) {
    predicate AvialableForLink(sess: nat, connectable: bool, now: nat, sessions: nat) {
      && nextTry <= now
      && bannedTime <= now
      && !(connectable && connective <= 0)
      && linkingRecord == {}
      && sess !in linkRecord
      && outLinkCount + inLinkCount < sessions
      && port != 0
    }

    /** Preference among candidates, from 20 for an untouched address down to 1. */
    function LinkPriority(): (p: int)
      ensures 1 <= p <= 20
    {
      if connective == 0 then
        if linkByCount == 0 then 20
        else if inLinkCount == 0 then 15
        else if inLinkCount == 1 then 10
        else 2
      else if connective > 0 then
        if outLinkCount == 0 then
          if byteGot != 0 || byteSend != 0 then
            if byteGot == 0 then 1
            else if byteSend == 0 then 18
            else
              var ratio := byteGot as real / byteSend as real;
              if ratio > 3.0 then 17
              else if ratio > 2.0 then 15
              else if ratio > 1.5 then 13
              else if ratio > 1.2 then 11
              else if ratio > 1.0 then 9
              else if ratio > 0.95 then 7
              else if ratio > 0.9 then 6
              else 5
          else Max(1, 12 - connective)
        else if outLinkCount == 1 then Max(1, 9 - connective)
        else 1
      else if connective == -1 then 7
      else if connective == -2 then (if linkByCount > 0 then 1 else 4)
      else 1
    }

    function RecordLinking(sess: nat): PeerDetail {
      this.(linkingRecord := linkingRecord + {sess})
    }

    /** The outcome of an attempt; `tick` is the back-off the clock yields. */
    function RecordLinkResult(sess: nat, ok: bool, tick: nat): PeerDetail {
      if ok then
        this.(linkingRecord := linkingRecord - {sess}, linkRecord := linkRecord + {sess},
              connective := if connective >= 0 then connective + 1 else 1,
              outLinkCount := outLinkCount + 1, nextTry := tick)
      else
        this.(linkingRecord := linkingRecord - {sess},
              connective := if connective > 0 then -1 else connective - 1, nextTry := tick)
    }

    function RecordClose(sess: nat, accepted: bool, tick: nat, ban: nat): PeerDetail
      requires if accepted then inLinkCount > 0 else outLinkCount > 0
    {
      if accepted then this.(inLinkCount := inLinkCount - 1, nextTry := tick, bannedTime := ban)
      else this.(outLinkCount := outLinkCount - 1, linkRecord := linkRecord - {sess},
                 nextTry := tick, bannedTime := ban)
    }

    /** At most three links per address in either direction when the peer asks for one more. */
    predicate Accepts(now: nat) {
      !(inLinkCount > 2) && !(outLinkCount + inLinkCount > 2) && !(bannedTime > now)
    }

    function TryAccept(now: nat, tick: nat): PeerDetail {
      if Accepts(now) then
        this.(linkByCount := linkByCount + 1, inLinkCount := inLinkCount + 1,
              nextTry := if connective <= -2 then tick else nextTry)
      else this.(linkByCount := linkByCount + 1)
    }

    /** An attempt that ended without a usable link: given up, no room, or closed by the peer. */
    function RecordNoLink(sess: nat, reached: bool, tick: nat): PeerDetail {
      if reached then
        this.(linkingRecord := linkingRecord - {sess},
              connective := if connective >= 0 then connective + 1 else 1, nextTry := tick)
      else this.(linkingRecord := linkingRecord - {sess})
    }
  }

  /** An address nobody has had to do with comes before all others. */
  lemma UntouchedFirst(p: PeerDetail)
    ensures p.LinkPriority() == 20 <==> p.connective == 0 && p.linkByCount == 0
  {
  }

  /** One that has linked to us but was never tried: the fewer of its links are up the better. */
  lemma UntriedPriority(p: PeerDetail)
    requires p.connective == 0 && p.linkByCount > 0
    ensures p.LinkPriority() == if p.inLinkCount > 1 then 2 else 15 - 5 * p.inLinkCount
  {
  }

  /** A proven one without a link: untested by longer acquaintance, else by what it gave for what it got. */
  lemma ProvenPriority(p: PeerDetail)
    requires p.connective > 0 && p.outLinkCount == 0
    ensures p.byteGot == 0 && p.byteSend == 0 ==> p.LinkPriority() == Max(1, 12 - p.connective)
    ensures p.byteGot == 0 && p.byteSend > 0 ==> p.LinkPriority() == 1
    ensures p.byteGot > 0 && p.byteSend == 0 ==> p.LinkPriority() == 18
  {
  }

  /** The steps of that ratio, each with the priority it is worth at least; below all of them it is 5. */
  lemma GenerousFirst(p: PeerDetail, step: real, worth: int)
    requires p.connective > 0 && p.outLinkCount == 0 && p.byteGot > 0 && p.byteSend > 0
    requires (step, worth) in
      {(3.0, 17), (2.0, 15), (1.5, 13), (1.2, 11), (1.0, 9), (0.95, 7), (0.9, 6)}
    ensures p.LinkPriority() in {17, 15, 13, 11, 9, 7, 6, 5}
    ensures p.LinkPriority() >= worth <==> p.byteGot as real / p.byteSend as real > step
  {
  }

  /** One that is linked already, and one that failed: the more often the worse. */
  lemma LinkedOrFailedPriority(p: PeerDetail)
    ensures p.connective > 0 && p.outLinkCount == 1 ==> p.LinkPriority() == Max(1, 9 - p.connective)
    ensures p.connective > 0 && p.outLinkCount > 1 ==> p.LinkPriority() == 1
    ensures p.connective == -1 ==> p.LinkPriority() == 7
    ensures p.connective == -2 && p.linkByCount == 0 ==> p.LinkPriority() == 4
    ensures p.connective == -2 && p.linkByCount > 0 ==> p.LinkPriority() == 1
    ensures p.connective < -2 ==> p.LinkPriority() == 1
  {
  }

  function NewPeer(ip: bv32, port: nat): PeerDetail {
    PeerDetail(ip, port, 0, 0, 0, 0, 0, {}, {}, 0, 0, 0)
  }

  // -------------------------------------------------------- outstanding links

  /** One attempt or link; the id tells links of the same session and peer apart. */
  datatype Link = Link(peer: Key, session: nat, id: nat)

  ghost function OfPeer(links: set<Link>, k: Key): set<Link> { set e | e in links && e.peer == k }

  ghost function OfSession(links: set<Link>, s: nat): set<Link> { set e | e in links && e.session == s }

  ghost function Sessions(links: set<Link>, k: Key): set<nat> { set e | e in links && e.peer == k :: e.session }

  lemma AddLink(links: set<Link>, x: Link)
    requires x !in links
    ensures |links + {x}| == |links| + 1
    ensures forall k :: |OfPeer(links + {x}, k)| == |OfPeer(links, k)| + (if k == x.peer then 1 else 0)
    ensures forall s :: |OfSession(links + {x}, s)| == |OfSession(links, s)| + (if s == x.session then 1 else 0)
  {
    forall k ensures |OfPeer(links + {x}, k)| == |OfPeer(links, k)| + (if k == x.peer then 1 else 0) {
      assert OfPeer(links + {x}, k) == if k == x.peer then OfPeer(links, k) + {x} else OfPeer(links, k);
    }
    forall s ensures |OfSession(links + {x}, s)| == |OfSession(links, s)| + (if s == x.session then 1 else 0) {
      assert OfSession(links + {x}, s) == if s == x.session then OfSession(links, s) + {x} else OfSession(links, s);
    }
  }

  lemma RemoveLink(links: set<Link>, x: Link)
    requires x in links
    ensures |links - {x}| == |links| - 1
    ensures forall k :: |OfPeer(links - {x}, k)| == |OfPeer(links, k)| - (if k == x.peer then 1 else 0)
    ensures forall s :: |OfSession(links - {x}, s)| == |OfSession(links, s)| - (if s == x.session then 1 else 0)
  {
    AddLink(links - {x}, x);
    assert links - {x} + {x} == links;
  }

  // --------------------------------------------------------------- the invariant

  /** The outstanding attempts and links the counters stand for. */
  datatype Links = Links(connecting: set<Link>, outgoing: set<Link>, incoming: set<Link>)

  datatype Counters = Counters(
    nConnection: int, nMyInit: int, nPeerInit: int, nConnecting: int,
    sessionConnecting: seq<int>, sessionConnection: seq<int>)

  /** One peer's entry agrees with its outstanding links. */
  ghost predicate PeerAgrees(k: Key, p: PeerDetail, l: Links, sessions: nat) {
    && k == KeyOf(p.ip)
    && p.linkingRecord == Sessions(l.connecting, k) && |OfPeer(l.connecting, k)| == |p.linkingRecord| <= 1
    && p.linkRecord == Sessions(l.outgoing, k) && |OfPeer(l.outgoing, k)| == |p.linkRecord| == p.outLinkCount
    && |OfPeer(l.incoming, k)| == p.inLinkCount
    && p.linkingRecord !! p.linkRecord
    && p.outLinkCount + p.inLinkCount + |p.linkingRecord| <= Max(sessions, 4)
  }

  ghost predicate PeersAgree(peers: map<Key, PeerDetail>, l: Links, sessions: nat) {
    && (forall k :: k in peers ==> PeerAgrees(k, peers[k], l, sessions))
    && (forall e :: e in l.connecting + l.outgoing + l.incoming ==> e.peer in peers && e.session < sessions)
    && (forall e :: e in l.connecting + l.outgoing ==> e.id == 0)
  }

  ghost predicate CountersAgree(c: Counters, l: Links, sessions: nat) {
    && c.nConnecting == |l.connecting|
    && c.nMyInit == |l.outgoing| && c.nPeerInit == |l.incoming|
    && c.nConnection == |l.outgoing| + |l.incoming|
    && |c.sessionConnecting| == |c.sessionConnection| == sessions
    && forall s :: 0 <= s < sessions ==>
         && c.sessionConnecting[s] == |OfSession(l.connecting, s)|
         && c.sessionConnection[s] == |OfSession(l.outgoing, s)| + |OfSession(l.incoming, s)|
  }

  /** An entry is untouched by links of other peers. */
  lemma OtherPeersKeep(peers: map<Key, PeerDetail>, l: Links, l': Links, sessions: nat, k: Key, p: PeerDetail)
    requires PeersAgree(peers, l, sessions)
    requires SameElsewhere(l.connecting, l'.connecting, k)
    requires SameElsewhere(l.outgoing, l'.outgoing, k)
    requires SameElsewhere(l.incoming, l'.incoming, k)
    requires forall e: Link :: e in l'.connecting + l'.outgoing + l'.incoming && e.peer == k ==> e.session < sessions
    requires forall e: Link :: e in l'.connecting + l'.outgoing && e.peer == k ==> e.id == 0
    requires PeerAgrees(k, p, l', sessions)
    ensures PeersAgree(peers[k := p], l', sessions)
  {
    var m := peers[k := p];
    forall j | j in m && j != k ensures PeerAgrees(j, m[j], l', sessions) {
      assert OfPeer(l'.connecting, j) == OfPeer(l.connecting, j);
      assert OfPeer(l'.outgoing, j) == OfPeer(l.outgoing, j);
      assert OfPeer(l'.incoming, j) == OfPeer(l.incoming, j);
      assert Sessions(l'.connecting, j) == Sessions(l.connecting, j);
      assert Sessions(l'.outgoing, j) == Sessions(l.outgoing, j);
      assert PeerAgrees(j, peers[j], l, sessions);
    }
    forall e: Link | e in l'.connecting + l'.outgoing + l'.incoming
      ensures e.peer in m && e.session < sessions && (e in l'.connecting + l'.outgoing ==> e.id == 0)
    {
      if e.peer != k {
        assert e in l.connecting + l.outgoing + l.incoming;
        assert e in l'.connecting + l'.outgoing ==> e in l.connecting + l.outgoing;
      }
    }
  }

  ghost predicate SameElsewhere(a: set<Link>, b: set<Link>, k: Key) {
    forall e: Link :: e.peer != k ==> (e in a <==> e in b)
  }

  lemma SessionsAdd(links: set<Link>, x: Link)
    ensures Sessions(links + {x}, x.peer) == Sessions(links, x.peer) + {x.session}
  {
    assert x in links + {x};
    forall s | s in Sessions(links, x.peer) ensures s in Sessions(links + {x}, x.peer) {
      var e :| e in links && e.peer == x.peer && e.session == s;
      assert e in links + {x};
    }
  }

  lemma SessionsRemove(links: set<Link>, x: Link)
    requires x in links && forall e :: e in links ==> e.id == x.id
    ensures Sessions(links - {x}, x.peer) == Sessions(links, x.peer) - {x.session}
  {
    SessionsAdd(links - {x}, x);
    assert links - {x} + {x} == links;
    forall s | s in Sessions(links - {x}, x.peer) ensures s != x.session {
      var e :| e in links - {x} && e.peer == x.peer && e.session == s;
      assert e.session == x.session ==> e == x;
    }
  }

  // ------------------------------------------------------------- the four moves

  ghost function Begin(l: Links, x: Link): Links { l.(connecting := l.connecting + {x}) }

  ghost function End(l: Links, x: Link): Links { l.(connecting := l.connecting - {x}) }

  ghost function Establish(l: Links, x: Link): Links {
    l.(connecting := l.connecting - {x}, outgoing := l.outgoing + {x})
  }

  ghost function Accepted(l: Links, x: Link): Links { l.(incoming := l.incoming + {x}) }

  ghost function Closed(l: Links, x: Link, accepted: bool): Links {
    if accepted then l.(incoming := l.incoming - {x}) else l.(outgoing := l.outgoing - {x})
  }

  lemma BeginKeeps(peers: map<Key, PeerDetail>, l: Links, sessions: nat, x: Link, p: PeerDetail)
    requires PeersAgree(peers, l, sessions) && x.peer in peers && x.session < sessions && x.id == 0
    requires
      var q := peers[x.peer];
      && q.linkingRecord == {} && x.session !in q.linkRecord && q.outLinkCount + q.inLinkCount < sessions
      && p == q.RecordLinking(x.session)
    ensures x !in l.connecting
    ensures PeersAgree(peers[x.peer := p], Begin(l, x), sessions)
  {
    var q := peers[x.peer];
    assert x in l.connecting ==> x.session in Sessions(l.connecting, x.peer);
    AddLink(l.connecting, x);
    SessionsAdd(l.connecting, x);
    assert p.linkingRecord == {x.session};
    assert PeerAgrees(x.peer, p, Begin(l, x), sessions);
    OtherPeersKeep(peers, l, Begin(l, x), sessions, x.peer, p);
  }

  /** An attempt that ended: `p` differs from the entry only in its connecting bit and its back-off. */
  lemma EndKeeps(peers: map<Key, PeerDetail>, l: Links, sessions: nat, x: Link, p: PeerDetail)
    requires PeersAgree(peers, l, sessions) && x in l.connecting
    requires
      var q := peers[x.peer];
      && p.linkingRecord == q.linkingRecord - {x.session} && p.linkRecord == q.linkRecord
      && p.outLinkCount == q.outLinkCount && p.inLinkCount == q.inLinkCount && p.ip == q.ip
    ensures PeersAgree(peers[x.peer := p], End(l, x), sessions)
  {
    var q := peers[x.peer];
    assert x.session in Sessions(l.connecting, x.peer);
    RemoveLink(l.connecting, x);
    SessionsRemove(l.connecting, x);
    assert PeerAgrees(x.peer, q, l, sessions);
    assert q.linkingRecord == p.linkingRecord + {x.session};
    assert PeerAgrees(x.peer, p, End(l, x), sessions);
    OtherPeersKeep(peers, l, End(l, x), sessions, x.peer, p);
  }

  lemma EstablishKeeps(peers: map<Key, PeerDetail>, l: Links, sessions: nat, x: Link, p: PeerDetail)
    requires PeersAgree(peers, l, sessions) && x in l.connecting
    requires
      var q := peers[x.peer];
      && p.linkingRecord == q.linkingRecord - {x.session} && p.linkRecord == q.linkRecord + {x.session}
      && p.outLinkCount == q.outLinkCount + 1 && p.inLinkCount == q.inLinkCount && p.ip == q.ip
    ensures x !in l.outgoing
    ensures PeersAgree(peers[x.peer := p], Establish(l, x), sessions)
  {
    hide PeersAgree;
    hide OfPeer;
    hide Sessions;
    hide OfSession;
    AttemptFacts(peers, l, sessions, x);
    var q := peers[x.peer];
    RemoveLink(l.connecting, x);
    SessionsRemove(l.connecting, x);
    AddLink(l.outgoing, x);
    SessionsAdd(l.outgoing, x);
    assert q.linkingRecord == p.linkingRecord + {x.session};
    assert PeerAgrees(x.peer, p, Establish(l, x), sessions);
    OtherPeersKeep(peers, l, Establish(l, x), sessions, x.peer, p);
  }

  /** What an attempt under way says of its peer's entry. */
  lemma AttemptFacts(peers: map<Key, PeerDetail>, l: Links, sessions: nat, x: Link)
    requires PeersAgree(peers, l, sessions) && x in l.connecting
    ensures x.peer in peers && PeerAgrees(x.peer, peers[x.peer], l, sessions)
    ensures x.session in Sessions(l.connecting, x.peer)
    ensures x.session !in Sessions(l.outgoing, x.peer) && x !in l.outgoing
    ensures forall e: Link :: e in l.connecting + l.outgoing ==> e.id == 0
    ensures forall e: Link :: e in l.connecting + l.outgoing + l.incoming ==> e.session < sessions
  {
    assert x in l.connecting + l.outgoing + l.incoming;
    assert PeerAgrees(x.peer, peers[x.peer], l, sessions);
    assert x.session in Sessions(l.connecting, x.peer);
    assert x in l.outgoing ==> x.session in Sessions(l.outgoing, x.peer);
  }

  lemma AcceptKeeps(peers: map<Key, PeerDetail>, l: Links, sessions: nat, x: Link, q: PeerDetail, p: PeerDetail)
    requires PeersAgree(peers, l, sessions) && x !in l.incoming && x.session < sessions
    requires PeerAgrees(x.peer, q, l, sessions)
    requires
      && p.linkingRecord == q.linkingRecord && p.linkRecord == q.linkRecord && p.ip == q.ip
      && p.outLinkCount == q.outLinkCount && p.inLinkCount == q.inLinkCount + 1
      && q.outLinkCount + q.inLinkCount <= 2
    ensures PeersAgree(peers[x.peer := p], Accepted(l, x), sessions)
  {
    AddLink(l.incoming, x);
    assert PeerAgrees(x.peer, p, Accepted(l, x), sessions);
    OtherPeersKeep(peers, l, Accepted(l, x), sessions, x.peer, p);
  }

  /** A refused peer leaves all links as they were. */
  lemma RefuseKeeps(peers: map<Key, PeerDetail>, l: Links, sessions: nat, k: Key, q: PeerDetail, p: PeerDetail)
    requires PeersAgree(peers, l, sessions) && PeerAgrees(k, q, l, sessions)
    requires
      && p.linkingRecord == q.linkingRecord && p.linkRecord == q.linkRecord && p.ip == q.ip
      && p.outLinkCount == q.outLinkCount && p.inLinkCount == q.inLinkCount
    ensures PeersAgree(peers[k := p], l, sessions)
  {
    OtherPeersKeep(peers, l, l, sessions, k, p);
  }

  lemma EntryAgrees(peers: map<Key, PeerDetail>, l: Links, sessions: nat, k: Key)
    requires PeersAgree(peers, l, sessions) && k in peers
    ensures PeerAgrees(k, peers[k], l, sessions) && KeyOf(peers[k].ip) == k
  {
  }

  lemma CloseIncomingKeeps(peers: map<Key, PeerDetail>, l: Links, sessions: nat, x: Link, p: PeerDetail)
    requires PeersAgree(peers, l, sessions) && x in l.incoming
    requires
      var q := peers[x.peer];
      && p.linkingRecord == q.linkingRecord && p.linkRecord == q.linkRecord && p.ip == q.ip
      && p.outLinkCount == q.outLinkCount && p.inLinkCount == q.inLinkCount - 1
    ensures PeersAgree(peers[x.peer := p], Closed(l, x, true), sessions)
  {
    assert PeerAgrees(x.peer, peers[x.peer], l, sessions);
    RemoveLink(l.incoming, x);
    assert PeerAgrees(x.peer, p, Closed(l, x, true), sessions);
    OtherPeersKeep(peers, l, Closed(l, x, true), sessions, x.peer, p);
  }

  lemma CloseOutgoingKeeps(peers: map<Key, PeerDetail>, l: Links, sessions: nat, x: Link, p: PeerDetail)
    requires PeersAgree(peers, l, sessions) && x in l.outgoing
    requires
      var q := peers[x.peer];
      && p.linkingRecord == q.linkingRecord && p.linkRecord == q.linkRecord - {x.session} && p.ip == q.ip
      && p.outLinkCount == q.outLinkCount - 1 && p.inLinkCount == q.inLinkCount
    ensures PeersAgree(peers[x.peer := p], Closed(l, x, false), sessions)
  {
    var q := peers[x.peer];
    assert PeerAgrees(x.peer, q, l, sessions);
    assert x.session in Sessions(l.outgoing, x.peer);
    RemoveLink(l.outgoing, x);
    SessionsRemove(l.outgoing, x);
    assert q.linkRecord == p.linkRecord + {x.session};
    assert PeerAgrees(x.peer, p, Closed(l, x, false), sessions);
    OtherPeersKeep(peers, l, Closed(l, x, false), sessions, x.peer, p);
  }

  /** A link that is still outstanding is counted in its peer's entry. */
  lemma OutstandingCounted(peers: map<Key, PeerDetail>, l: Links, sessions: nat, x: Link, accepted: bool)
    requires PeersAgree(peers, l, sessions) && x in (if accepted then l.incoming else l.outgoing)
    ensures x.peer in peers && x.session < sessions
    ensures if accepted then peers[x.peer].inLinkCount > 0 else peers[x.peer].outLinkCount > 0
  {
    assert x in l.connecting + l.outgoing + l.incoming;
    assert PeerAgrees(x.peer, peers[x.peer], l, sessions);
    assert accepted ==> x in OfPeer(l.incoming, x.peer);
    assert !accepted ==> x in OfPeer(l.outgoing, x.peer);
  }

  /** An address heard of for the first time has no links. */
  lemma NewPeerAgrees(peers: map<Key, PeerDetail>, l: Links, sessions: nat, ip: bv32, port: nat)
    requires PeersAgree(peers, l, sessions) && KeyOf(ip) !in peers
    ensures PeerAgrees(KeyOf(ip), NewPeer(ip, port), l, sessions)
  {
    var k := KeyOf(ip);
    assert OfPeer(l.connecting, k) == {} && OfPeer(l.outgoing, k) == {} && OfPeer(l.incoming, k) == {};
    assert Sessions(l.connecting, k) == {} && Sessions(l.outgoing, k) == {};
  }

  // ------------------------------------------------------------------- totals

  function Sum(s: seq<int>): int { if s == [] then 0 else Sum(s[..|s| - 1]) + s[|s| - 1] }

  lemma {:induction false} SumOfSessions(links: set<Link>, counts: seq<int>)
    requires forall e :: e in links ==> e.session < |counts|
    requires forall s :: 0 <= s < |counts| ==> counts[s] == |OfSession(links, s)|
    ensures Sum(counts) == |links|
  {
    var n := |counts|;
    if n == 0 {
      assert forall e :: e !in links;
      assert links == {};
    } else {
      var rest, last := links - OfSession(links, n - 1), OfSession(links, n - 1);
      forall s | 0 <= s < n - 1 ensures OfSession(rest, s) == OfSession(links, s) {
      }
      SumOfSessions(rest, counts[..n - 1]);
      assert links == rest + last && rest !! last;
    }
  }

  lemma {:induction false} SumAdds(a: seq<int>, b: seq<int>, c: seq<int>)
    requires |a| == |b| == |c| && forall i :: 0 <= i < |a| ==> c[i] == a[i] + b[i]
    ensures Sum(c) == Sum(a) + Sum(b)
  {
    if |a| > 0 {
      SumAdds(a[..|a| - 1], b[..|a| - 1], c[..|a| - 1]);
    }
  }

  ghost function Pick(peers: map<Key, PeerDetail>): (k: Key)
    requires |peers| > 0
    ensures k in peers
  {
    NonEmpty(peers);
    var k :| k in peers;
    k
  }

  lemma NonEmpty(peers: map<Key, PeerDetail>)
    requires |peers| > 0
    ensures exists k :: k in peers
  {
    assert peers.Keys != {};
  }

  /** A quantity added up over all entries. */
  ghost function Total(peers: map<Key, PeerDetail>, f: PeerDetail -> int): int
    decreases |peers|
  {
    if |peers| == 0 then 0 else
      var k := Pick(peers);
      assert (peers - {k}).Keys == peers.Keys - {k};
      f(peers[k]) + Total(peers - {k}, f)
  }

  lemma {:induction false} TotalIsLinks(peers: map<Key, PeerDetail>, links: set<Link>, f: PeerDetail -> int)
    requires forall e :: e in links ==> e.peer in peers
    requires forall k :: k in peers ==> f(peers[k]) == |OfPeer(links, k)|
    ensures Total(peers, f) == |links|
    decreases |peers|
  {
    if |peers| == 0 {
      assert peers.Keys == {};
      assert forall e :: e !in links;
      assert links == {};
    } else {
      var k := Pick(peers);
      var few := peers - {k};
      assert few.Keys == peers.Keys - {k};
      var rest, mine := links - OfPeer(links, k), OfPeer(links, k);
      forall j | j in few ensures few[j] == peers[j] && OfPeer(rest, j) == OfPeer(links, j) {
      }
      TotalIsLinks(few, rest, f);
      assert links == rest + mine && rest !! mine;
    }
  }

  /**
    The books balance: each global counter is the sum of its session counters
    and the sum over all addresses of what their entries record.
  */
  lemma BooksBalance(peers: map<Key, PeerDetail>, c: Counters, l: Links, sessions: nat)
    requires PeersAgree(peers, l, sessions) && CountersAgree(c, l, sessions)
    ensures c.nConnecting == Sum(c.sessionConnecting) == Total(peers, (p: PeerDetail) => |p.linkingRecord|)
    ensures c.nConnection == Sum(c.sessionConnection) == c.nMyInit + c.nPeerInit
    ensures c.nMyInit == Total(peers, (p: PeerDetail) => p.outLinkCount)
    ensures c.nPeerInit == Total(peers, (p: PeerDetail) => p.inLinkCount)
    ensures forall k :: k in peers ==>
              && |peers[k].linkingRecord| <= 1
              && peers[k].outLinkCount == |peers[k].linkRecord|
              && peers[k].outLinkCount + peers[k].inLinkCount + |peers[k].linkingRecord| <= Max(sessions, 4)
  {
    forall e | e in l.connecting || e in l.outgoing || e in l.incoming
      ensures e.peer in peers && e.session < sessions
    {
      assert e in l.connecting + l.outgoing + l.incoming;
    }
    SumOfSessions(l.connecting, c.sessionConnecting);
    var outs := seq(sessions, s requires 0 <= s < sessions => |OfSession(l.outgoing, s)|);
    var ins := seq(sessions, s requires 0 <= s < sessions => |OfSession(l.incoming, s)|);
    SumOfSessions(l.outgoing, outs);
    SumOfSessions(l.incoming, ins);
    SumAdds(outs, ins, c.sessionConnection);
    forall k | k in peers ensures PeerAgrees(k, peers[k], l, sessions) {
    }
    TotalIsLinks(peers, l.connecting, (p: PeerDetail) => |p.linkingRecord|);
    TotalIsLinks(peers, l.outgoing, (p: PeerDetail) => p.outLinkCount);
    TotalIsLinks(peers, l.incoming, (p: PeerDetail) => p.inLinkCount);
  }

  // ------------------------------------------------------------------- the class

  predicate Before(a: Key, b: Key) { a.hash as int <= b.hash as int }

  lemma BeforeOrders(a: Key, b: Key)
    ensures Before(a, a) && (Before(a, b) || Before(b, a))
  {
  }

  lemma BeforeChains(a: Key, b: Key, c: Key)
    requires Before(a, b) && Before(b, c)
    ensures Before(a, c)
  {
  }

  ghost predicate IsFirst(k: Key, keys: set<Key>) { k in keys && forall j :: j in keys ==> Before(k, j) }

  /** A smallest key exists, so the map can be walked in order. */
  lemma {:induction false} FirstKey(keys: set<Key>)
    requires keys != {}
    ensures exists k :: IsFirst(k, keys)
  {
    hide Before;
    var a :| a in keys;
    BeforeOrders(a, a);
    var rest := keys - {a};
    if rest == {} {
      assert keys == {a};
      assert IsFirst(a, keys);
    } else {
      FirstKey(rest);
      var b :| IsFirst(b, rest);
      BeforeOrders(a, b);
      if Before(a, b) {
        forall j | j in rest ensures Before(a, j) {
          BeforeChains(a, b, j);
        }
        assert IsFirst(a, keys);
      } else {
        assert IsFirst(b, keys);
      }
    }
  }

  /** Who is asking for an address: the session, whether it wants a proven address, and the time. */
  datatype Query = Query(sess: nat, connectable: bool, now: nat, sessions: nat)

  ghost predicate Candidate(peers: map<Key, PeerDetail>, k: Key, q: Query) {
    k in peers && peers[k].AvialableForLink(q.sess, q.connectable, q.now, q.sessions)
  }

  /** Who is a candidate, said of the outstanding attempts and links. */
  lemma CandidateIff(peers: map<Key, PeerDetail>, l: Links, k: Key, q: Query)
    requires k in peers && PeersAgree(peers, l, q.sessions)
    ensures Candidate(peers, k, q) <==>
      && peers[k].nextTry <= q.now && peers[k].bannedTime <= q.now && peers[k].port != 0
      && (q.connectable ==> peers[k].connective > 0)
      && (forall e :: e in l.connecting ==> e.peer != k)
      && Link(k, q.sess, 0) !in l.outgoing
      && |OfPeer(l.outgoing, k)| + |OfPeer(l.incoming, k)| < q.sessions
  {
    var p := peers[k];
    assert PeerAgrees(k, p, l, q.sessions);
    if e :| e in l.connecting && e.peer == k {
      assert e.session in Sessions(l.connecting, k);
    }
    if p.linkingRecord != {} {
      var n :| n in Sessions(l.connecting, k);
      var e :| e in l.connecting && e.peer == k && e.session == n;
    }
    if q.sess in p.linkRecord {
      var e :| e in l.outgoing && e.peer == k && e.session == q.sess;
      assert e == Link(k, q.sess, 0);
    }
    if Link(k, q.sess, 0) in l.outgoing {
      assert q.sess in Sessions(l.outgoing, k);
    }
  }

  ghost predicate Prefers(peers: map<Key, PeerDetail>, k: Key, j: Key)
    requires k in peers && j in peers
  {
    && peers[j].LinkPriority() <= peers[k].LinkPriority()
    && (peers[j].LinkPriority() == peers[k].LinkPriority() ==> Before(k, j))
  }

  /** Of the candidates among `seen`, `best` is the first in key order with the top priority. */
  ghost predicate BestOf(peers: map<Key, PeerDetail>, seen: set<Key>, best: Option<Key>, q: Query) {
    match best
    case None => forall j :: j in seen ==> !Candidate(peers, j, q)
    case Some(k) =>
      && k in seen && Candidate(peers, k, q)
      && forall j :: j in seen && Candidate(peers, j, q) ==> Prefers(peers, k, j)
  }

  lemma BestFacts(peers: map<Key, PeerDetail>, best: Option<Key>, q: Query)
    requires BestOf(peers, peers.Keys, best, q)
    ensures best.None? ==> forall j :: !Candidate(peers, j, q)
    ensures best.Some? ==> Candidate(peers, best.value, q)
  {
  }

  lemma BestIsFirst(peers: map<Key, PeerDetail>, best: Option<Key>, q: Query)
    requires BestOf(peers, peers.Keys, best, q)
    ensures best.Some? ==> best.value in peers
    ensures best.Some? ==> forall j :: Candidate(peers, j, q) && j.hash as int < best.value.hash as int ==>
              peers[j].LinkPriority() < peers[best.value].LinkPriority()
  {
    hide PeerDetail.LinkPriority;
    hide PeerDetail.AvialableForLink;
  }

  lemma CounterSizes(c: Counters, l: Links, sessions: nat)
    requires CountersAgree(c, l, sessions)
    ensures |c.sessionConnecting| == |c.sessionConnection| == sessions
  {
  }

  // --------------------------------------------------- the counters at each move

  function Change(s: seq<int>, i: nat, d: int): seq<int>
    requires i < |s|
  {
    s[i := s[i] + d]
  }

  lemma CountersBegin(c: Counters, l: Links, sessions: nat, x: Link)
    requires CountersAgree(c, l, sessions) && x.session < sessions && x !in l.connecting
    ensures |c.sessionConnecting| == sessions
    ensures CountersAgree(c.(nConnecting := c.nConnecting + 1,
                             sessionConnecting := Change(c.sessionConnecting, x.session, 1)),
                          Begin(l, x), sessions)
  {
    AddLink(l.connecting, x);
  }

  lemma CountersEnd(c: Counters, l: Links, sessions: nat, x: Link)
    requires CountersAgree(c, l, sessions) && x.session < sessions && x in l.connecting
    ensures |c.sessionConnecting| == sessions
    ensures CountersAgree(c.(nConnecting := c.nConnecting - 1,
                             sessionConnecting := Change(c.sessionConnecting, x.session, -1)),
                          End(l, x), sessions)
  {
    RemoveLink(l.connecting, x);
  }

  lemma CountersOutgoing(c: Counters, l: Links, sessions: nat, x: Link)
    requires CountersAgree(c, l, sessions) && x.session < sessions && x !in l.outgoing
    ensures |c.sessionConnection| == sessions
    ensures CountersAgree(c.(nConnection := c.nConnection + 1, nMyInit := c.nMyInit + 1,
                             sessionConnection := Change(c.sessionConnection, x.session, 1)),
                          l.(outgoing := l.outgoing + {x}), sessions)
  {
    AddLink(l.outgoing, x);
  }

  lemma CountersEstablish(c: Counters, l: Links, sessions: nat, x: Link)
    requires CountersAgree(c, l, sessions) && x.session < sessions && x in l.connecting && x !in l.outgoing
    ensures |c.sessionConnecting| == |c.sessionConnection| == sessions
    ensures CountersAgree(c.(nConnecting := c.nConnecting - 1,
                             sessionConnecting := Change(c.sessionConnecting, x.session, -1),
                             nConnection := c.nConnection + 1, nMyInit := c.nMyInit + 1,
                             sessionConnection := Change(c.sessionConnection, x.session, 1)),
                          Establish(l, x), sessions)
  {
    hide CountersAgree;
    CountersEnd(c, l, sessions, x);
    var d := c.(nConnecting := c.nConnecting - 1, sessionConnecting := Change(c.sessionConnecting, x.session, -1));
    CountersOutgoing(d, End(l, x), sessions, x);
  }

  lemma CountersAccepted(c: Counters, l: Links, sessions: nat, x: Link)
    requires CountersAgree(c, l, sessions) && x.session < sessions && x !in l.incoming
    ensures |c.sessionConnection| == sessions
    ensures CountersAgree(c.(nConnection := c.nConnection + 1, nPeerInit := c.nPeerInit + 1,
                             sessionConnection := Change(c.sessionConnection, x.session, 1)),
                          Accepted(l, x), sessions)
  {
    AddLink(l.incoming, x);
  }

  lemma CountersClosed(c: Counters, l: Links, sessions: nat, x: Link, accepted: bool)
    requires CountersAgree(c, l, sessions) && x.session < sessions
    requires x in (if accepted then l.incoming else l.outgoing)
    ensures |c.sessionConnection| == sessions
    ensures CountersAgree(c.(nConnection := c.nConnection - 1,
                             nMyInit := if accepted then c.nMyInit else c.nMyInit - 1,
                             nPeerInit := if accepted then c.nPeerInit - 1 else c.nPeerInit,
                             sessionConnection := Change(c.sessionConnection, x.session, -1)),
                          Closed(l, x, accepted), sessions)
  {
    RemoveLink(if accepted then l.incoming else l.outgoing, x);
  }

  function ForgetBans(peers: map<Key, PeerDetail>): map<Key, PeerDetail> {
    map k | k in peers :: peers[k].(nextTry := 0, bannedTime := 0)
  }

  lemma ForgetBansKeeps(peers: map<Key, PeerDetail>, l: Links, sessions: nat)
    requires PeersAgree(peers, l, sessions)
    ensures PeersAgree(ForgetBans(peers), l, sessions) && |ForgetBans(peers)| == |peers|
  {
    hide HashIP;
    var now := ForgetBans(peers);
    assert now.Keys == peers.Keys;
    forall k | k in now ensures PeerAgrees(k, now[k], l, sessions) {
      assert PeerAgrees(k, peers[k], l, sessions);
    }
  }

  ghost predicate Consistent(peers: map<Key, PeerDetail>, total: int, c: Counters, l: Links, nextId: nat,
                             sessions: nat) {
    && PeersAgree(peers, l, sessions)
    && CountersAgree(c, l, sessions)
    && total == |peers|
    && forall e :: e in l.incoming ==> e.id < nextId
  }

  lemma LinkedKeeps(peers: map<Key, PeerDetail>, total: int, c: Counters, l: Links, nextId: nat, sessions: nat,
                    x: Link, ok: bool, tick: nat)
    requires Consistent(peers, total, c, l, nextId, sessions) && x in l.connecting
    ensures x.peer in peers && x.session < sessions == |c.sessionConnecting| == |c.sessionConnection|
    ensures
      var less := c.(nConnecting := c.nConnecting - 1, sessionConnecting := Change(c.sessionConnecting, x.session, -1));
      var d := if ok then less.(nConnection := c.nConnection + 1, nMyInit := c.nMyInit + 1,
                                sessionConnection := Change(c.sessionConnection, x.session, 1)) else less;
      Consistent(peers[x.peer := peers[x.peer].RecordLinkResult(x.session, ok, tick)], total, d,
                 if ok then Establish(l, x) else End(l, x), nextId, sessions)
  {
    hide PeersAgree;
    hide CountersAgree;
    hide PeerAgrees;
    AttemptFacts(peers, l, sessions, x);
    CounterSizes(c, l, sessions);
    var p := peers[x.peer].RecordLinkResult(x.session, ok, tick);
    if ok {
      EstablishKeeps(peers, l, sessions, x, p);
      CountersEstablish(c, l, sessions, x);
    } else {
      EndKeeps(peers, l, sessions, x, p);
      CountersEnd(c, l, sessions, x);
    }
  }

  lemma AcceptedKeeps(peers: map<Key, PeerDetail>, total: int, c: Counters, l: Links, nextId: nat, sessions: nat,
                      ip: bv32, sess: nat, now: nat, tick: nat)
    requires Consistent(peers, total, c, l, nextId, sessions) && sess < sessions
    ensures sessions == |c.sessionConnection|
    ensures
      var k := KeyOf(ip);
      var x := Link(k, sess, nextId);
      var q := if k in peers then peers[k] else NewPeer(ip, 0);
      var all := if k in peers then total else total + 1;
      && x !in l.incoming
      && (k !in peers ==> q.Accepts(now))
      && if q.Accepts(now) then
           Consistent(peers[k := q.TryAccept(now, tick)], all,
                      c.(nConnection := c.nConnection + 1, nPeerInit := c.nPeerInit + 1,
                         sessionConnection := Change(c.sessionConnection, sess, 1)),
                      Accepted(l, x), nextId + 1, sessions)
         else
           Consistent(peers[k := q.TryAccept(now, tick)], all, c, l, nextId, sessions)
  {
    hide PeersAgree;
    hide CountersAgree;
    hide PeerAgrees;
    hide HashIP;
    var k := KeyOf(ip);
    var x := Link(k, sess, nextId);
    CounterSizes(c, l, sessions);
    if k in peers {
      EntryAgrees(peers, l, sessions, k);
    } else {
      NewPeerAgrees(peers, l, sessions, ip, 0);
    }
    var q := if k in peers then peers[k] else NewPeer(ip, 0);
    var p := q.TryAccept(now, tick);
    if q.Accepts(now) {
      AcceptKeeps(peers, l, sessions, x, q, p);
      CountersAccepted(c, l, sessions, x);
    } else {
      RefuseKeeps(peers, l, sessions, k, q, p);
    }
  }

  class PeerCenter {
    const sessions: nat

    var peers: map<Key, PeerDetail>
    var totalPeer: int
    var nConnection: int
    var nMyInit: int
    var nPeerInit: int
    var nConnecting: int
    var sessionConnecting: seq<int>
    var sessionConnection: seq<int>
    var connectingLimit: nat
    var connectionLimit: nat
    var uploadMode: bool

    ghost var links: Links
    ghost var nextId: nat

    ghost function Books(): Counters
      reads this
    {
      Counters(nConnection, nMyInit, nPeerInit, nConnecting, sessionConnecting, sessionConnection)
    }

    ghost predicate Valid()
      reads this
    {
      sessions > 0 && Consistent(peers, totalPeer, Books(), links, nextId, sessions)
    }

    constructor (sessions: nat)
      requires sessions > 0
      ensures Valid() && this.sessions == sessions && peers == map[] && links == Links({}, {}, {})
      ensures connectingLimit == 20 && connectionLimit == 50 && !uploadMode
    {
      this.sessions := sessions;
      peers, totalPeer := map[], 0;
      nConnection, nMyInit, nPeerInit, nConnecting := 0, 0, 0, 0;
      sessionConnecting := seq(sessions, _ => 0);
      sessionConnection := seq(sessions, _ => 0);
      connectingLimit, connectionLimit, uploadMode := 20, 50, false;
      links, nextId := Links({}, {}, {}), 0;
      new;
      assert forall s :: OfSession({}, s) == {};
    }

    /** A tracker or a peer names an address: true when it is new. */
    method AddAvialablePeerInfo(ip: bv32, port: nat) returns (added: bool)
      requires Valid()
      modifies this`peers, this`totalPeer
      ensures Valid()
      ensures added == (KeyOf(ip) !in old(peers))
      ensures added ==> peers == old(peers)[KeyOf(ip) := PeerDetail(ip, port, 0, 0, 0, 0, 0, {}, {}, 0, 0, 0)]
      ensures !added ==>
        var q := old(peers)[KeyOf(ip)];
        && q.ip == ip
        && peers == old(peers)[KeyOf(ip) := if q.port == port then q
                                            else q.(port := port, connective := 0, nextTry := 0)]
    {
      hide PeersAgree;
      hide CountersAgree;
      hide HashIP;
      hide Sessions;
      hide OfPeer;
      hide OfSession;
      var k := KeyOf(ip);
      if k in peers {
        EntryAgrees(peers, links, sessions, k);
        SameAddress(peers, links, sessions, ip);
        if peers[k].port != port {
          var p := peers[k].(port := port, connective := 0, nextTry := 0);
          RefuseKeeps(peers, links, sessions, k, peers[k], p);
          peers := peers[k := p];
        }
        return false;
      }
      NewPeerAgrees(peers, links, sessions, ip, port);
      RefuseKeeps(peers, links, sessions, k, NewPeer(ip, port), NewPeer(ip, port));
      peers := peers[k := NewPeer(ip, port)];
      totalPeer := totalPeer + 1;
      return true;
    }

    method BestCandidate(sess: nat, connectable: bool, now: nat) returns (best: Option<Key>)
      ensures BestOf(peers, peers.Keys, best, Query(sess, connectable, now, sessions))
    {
      hide Before;
      hide PeerDetail.LinkPriority;
      hide PeerDetail.AvialableForLink;
      best := None;
      var priority := -1;
      var rest := peers.Keys;
      ghost var seen := {};
      while rest != {}
        invariant seen + rest == peers.Keys
        invariant forall i, j :: i in seen && j in rest ==> Before(i, j)
        invariant BestOf(peers, seen, best, Query(sess, connectable, now, sessions))
        invariant priority == if best.Some? then peers[best.value].LinkPriority() else -1
        decreases |rest|
      {
        FirstKey(rest);
        var k :| k in rest && forall j :: j in rest ==> Before(k, j);
        BeforeOrders(k, k);
        if peers[k].AvialableForLink(sess, connectable, now, sessions) && peers[k].LinkPriority() > priority {
          best, priority := Some(k), peers[k].LinkPriority();
        }
        rest := rest - {k};
        seen := seen + {k};
      }
      assert seen == peers.Keys;
    }

    /** A session asks for an address to link: the attempt counts until it is reported. */
    method GetPeerInfoToLink(sess: nat, connectable: bool, now: nat) returns (found: Option<(bv32, nat)>)
      requires Valid() && sess < sessions
      modifies this`peers, this`nConnecting, this`sessionConnecting, this`links
      ensures Valid()
      ensures found.Some? <==>
        && old(nConnecting) < connectingLimit
        && old(sessionConnecting)[sess] <= connectingLimit / sessions
        && exists k :: Candidate(old(peers), k, Query(sess, connectable, now, sessions))
      ensures found.None? ==> peers == old(peers) && links == old(links)
      ensures found.Some? ==>
        var k := KeyOf(found.value.0);
        && BestOf(old(peers), old(peers).Keys, Some(k), Query(sess, connectable, now, sessions))
        && found.value == (old(peers)[k].ip, old(peers)[k].port)
        && peers == old(peers)[k := old(peers)[k].RecordLinking(sess)]
        && Link(k, sess, 0) !in old(links).connecting && links == Begin(old(links), Link(k, sess, 0))
        && nConnecting <= connectingLimit && sessionConnecting[sess] <= connectingLimit / sessions + 1
      // the address found may be tried now, nobody is at it, and it has room for one more
      ensures found.Some? ==>
        var k := KeyOf(found.value.0);
        var q := old(peers)[k];
        && q.nextTry <= now && q.bannedTime <= now && q.port != 0 && (connectable ==> q.connective > 0)
        && (forall e :: e in old(links).connecting ==> e.peer != k)
        && Link(k, sess, 0) !in old(links).outgoing
        && |OfPeer(old(links).outgoing, k)| + |OfPeer(old(links).incoming, k)| < sessions
        && peers[k] == q.(linkingRecord := {sess})
        && forall j :: Candidate(old(peers), j, Query(sess, connectable, now, sessions)) &&
                       j.hash as int < k.hash as int ==>
             old(peers)[j].LinkPriority() < q.LinkPriority()
    {
      hide PeersAgree;
      hide CountersAgree;
      hide HashIP;
      hide Sessions;
      hide OfPeer;
      hide OfSession;
      hide BestOf;
      hide PeerDetail.LinkPriority;
      CounterSizes(Books(), links, sessions);
      if nConnecting >= connectingLimit || sessionConnecting[sess] > connectingLimit / sessions {
        return None;
      }
      var best := BestCandidate(sess, connectable, now);
      BestIsFirst(peers, best, Query(sess, connectable, now, sessions));
      BestFacts(peers, best, Query(sess, connectable, now, sessions));
      if best == None {
        return None;
      }
      var k := best.value;
      ghost var x := Link(k, sess, 0);
      CandidateIff(peers, links, k, Query(sess, connectable, now, sessions));
      EntryAgrees(peers, links, sessions, k);
      var p := peers[k];
      BeginKeeps(peers, links, sessions, x, p.RecordLinking(sess));
      CountersBegin(Books(), links, sessions, x);
      peers := peers[k := p.RecordLinking(sess)];
      links := Begin(links, x);
      nConnecting := nConnecting + 1;
      sessionConnecting := Change(sessionConnecting, sess, 1);
      return Some((p.ip, p.port));
    }

    /** An attempt is reported as linked or failed. */
    method LinkReport(sess: nat, ip: bv32, ok: bool, tick: nat)
      requires Valid() && Link(KeyOf(ip), sess, 0) in links.connecting
      modifies this`peers, this`nConnecting, this`sessionConnecting, this`nMyInit, this`nConnection
      modifies this`sessionConnection, this`links
      ensures Valid()
      ensures KeyOf(ip) in old(peers)
      ensures
        var q := old(peers)[KeyOf(ip)];
        peers == old(peers)[KeyOf(ip) := q.(
          linkingRecord := q.linkingRecord - {sess},
          linkRecord := if ok then q.linkRecord + {sess} else q.linkRecord,
          outLinkCount := if ok then q.outLinkCount + 1 else q.outLinkCount,
          connective := if ok then Max(q.connective, 0) + 1 else Min(q.connective, 0) - 1,
          nextTry := tick)]
      ensures var x := Link(KeyOf(ip), sess, 0);
              links == if ok then Establish(old(links), x) else End(old(links), x)
    {
      hide Consistent;
      hide HashIP;
      var k := KeyOf(ip);
      ghost var x := Link(k, sess, 0);
      LinkedKeeps(peers, totalPeer, Books(), links, nextId, sessions, x, ok, tick);
      peers := peers[k := peers[k].RecordLinkResult(sess, ok, tick)];
      nConnecting := nConnecting - 1;
      sessionConnecting := Change(sessionConnecting, sess, -1);
      links := if ok then Establish(links, x) else End(links, x);
      if ok {
        nMyInit := nMyInit + 1;
        nConnection := nConnection + 1;
        sessionConnection := Change(sessionConnection, sess, 1);
      }
    }

    /**
      An attempt ends without a link. It was given up before an answer, or the
      peer was reached but there was no room, or the peer closed at once.
    */
    method EndAttempt(sess: nat, ip: bv32, reached: bool, tick: nat)
      requires Valid() && Link(KeyOf(ip), sess, 0) in links.connecting
      modifies this`peers, this`nConnecting, this`sessionConnecting, this`links
      ensures Valid()
      ensures KeyOf(ip) in old(peers)
      ensures
        var q := old(peers)[KeyOf(ip)];
        peers == old(peers)[KeyOf(ip) := q.(
          linkingRecord := q.linkingRecord - {sess},
          connective := if reached then Max(q.connective, 0) + 1 else q.connective,
          nextTry := if reached then tick else q.nextTry)]
      ensures links == End(old(links), Link(KeyOf(ip), sess, 0))
    {
      hide PeersAgree;
      hide CountersAgree;
      hide HashIP;
      hide Sessions;
      hide OfPeer;
      hide OfSession;
      hide PeerAgrees;
      var k := KeyOf(ip);
      ghost var x := Link(k, sess, 0);
      AttemptFacts(peers, links, sessions, x);
      var p := peers[k].RecordNoLink(sess, reached, tick);
      CountersEnd(Books(), links, sessions, x);
      EndKeeps(peers, links, sessions, x, p);
      peers := peers[k := p];
      nConnecting := nConnecting - 1;
      sessionConnecting := Change(sessionConnecting, sess, -1);
      links := End(links, x);
    }

    method GiveUpLink(sess: nat, ip: bv32)
      requires Valid() && Link(KeyOf(ip), sess, 0) in links.connecting
      modifies this`peers, this`nConnecting, this`sessionConnecting, this`links
      ensures Valid() && links == End(old(links), Link(KeyOf(ip), sess, 0))
      ensures KeyOf(ip) in old(peers)
      ensures
        var q := old(peers)[KeyOf(ip)];
        peers == old(peers)[KeyOf(ip) := q.(linkingRecord := q.linkingRecord - {sess})]
    {
      EndAttempt(sess, ip, false, 0);
    }

    /** A link ends; `link` names which of the session's links with that peer it was. */
    method CloseReport(sess: nat, ip: bv32, accepted: bool, tick: nat, ban: nat, ghost link: Link)
      requires Valid() && link.peer == KeyOf(ip) && link.session == sess
      requires link in (if accepted then links.incoming else links.outgoing)
      modifies this`peers, this`nConnection, this`nMyInit, this`nPeerInit, this`sessionConnection, this`links
      ensures Valid()
      ensures links == Closed(old(links), link, accepted)
      ensures KeyOf(ip) in old(peers)
      ensures var q := old(peers)[KeyOf(ip)];
              && (if accepted then q.inLinkCount > 0 else q.outLinkCount > 0)
              && peers == old(peers)[KeyOf(ip) := q.(
                   inLinkCount := if accepted then q.inLinkCount - 1 else q.inLinkCount,
                   outLinkCount := if accepted then q.outLinkCount else q.outLinkCount - 1,
                   linkRecord := if accepted then q.linkRecord else q.linkRecord - {sess},
                   nextTry := tick, bannedTime := ban)]
    {
      hide PeersAgree;
      hide CountersAgree;
      hide HashIP;
      hide Sessions;
      hide OfPeer;
      hide OfSession;
      hide PeerAgrees;
      var k := KeyOf(ip);
      OutstandingCounted(peers, links, sessions, link, accepted);
      CountersClosed(Books(), links, sessions, link, accepted);
      var p := peers[k].RecordClose(sess, accepted, tick, ban);
      if accepted {
        CloseIncomingKeeps(peers, links, sessions, link, p);
      } else {
        CloseOutgoingKeeps(peers, links, sessions, link, p);
      }
      nConnection := nConnection - 1;
      sessionConnection := Change(sessionConnection, sess, -1);
      if accepted {
        nPeerInit := nPeerInit - 1;
      } else {
        nMyInit := nMyInit - 1;
      }
      peers := peers[k := p];
      links := Closed(links, link, accepted);
    }

    /** A peer asks to link: an unknown address gets an entry with port 0. */
    method TryAcceptPeerLink(sess: nat, ip: bv32, now: nat, tick: nat) returns (ok: bool, ghost link: Link)
      requires Valid() && sess < sessions
      modifies this`peers, this`totalPeer, this`nConnection, this`nPeerInit, this`sessionConnection
      modifies this`links, this`nextId
      ensures Valid()
      ensures var known := KeyOf(ip) in old(peers);
              var q := if known then old(peers)[KeyOf(ip)] else NewPeer(ip, 0);
              && ok == (old(nConnection) < connectionLimit &&
                        (known ==> q.inLinkCount + q.outLinkCount <= 2 && q.bannedTime <= now))
              && peers == if old(nConnection) >= connectionLimit then old(peers)
                          else old(peers)[KeyOf(ip) := q.(
                            linkByCount := q.linkByCount + 1,
                            inLinkCount := if ok then q.inLinkCount + 1 else q.inLinkCount,
                            nextTry := if ok && q.connective < -1 then tick else q.nextTry)]
      ensures !ok ==> links == old(links)
      ensures ok ==> link !in old(links).incoming && link.peer == KeyOf(ip) && link.session == sess
                     && links == Accepted(old(links), link) && nConnection <= connectionLimit
    {
      hide Consistent;
      hide HashIP;
      var k := KeyOf(ip);
      link := Link(k, sess, nextId);
      if nConnection >= connectionLimit {
        return false, link;
      }
      AcceptedKeeps(peers, totalPeer, Books(), links, nextId, sessions, ip, sess, now, tick);
      if k !in peers {
        totalPeer := totalPeer + 1;
      }
      var q := if k in peers then peers[k] else NewPeer(ip, 0);
      peers := peers[k := q.TryAccept(now, tick)];
      ok := q.Accepts(now);
      if ok {
        nPeerInit := nPeerInit + 1;
        nConnection := nConnection + 1;
        sessionConnection := Change(sessionConnection, sess, 1);
        links, nextId := Accepted(links, link), nextId + 1;
      }
    }

    /** A bitset from an address without an entry creates one; the rest of the check is left out. */
    method CheckBitSet(ip: bv32)
      requires Valid()
      modifies this`peers, this`totalPeer
      ensures Valid()
      ensures peers == if KeyOf(ip) in old(peers) then old(peers) else old(peers)[KeyOf(ip) := NewPeer(ip, 0)]
    {
      hide PeersAgree;
      hide CountersAgree;
      hide HashIP;
      hide Sessions;
      hide OfPeer;
      hide OfSession;
      var k := KeyOf(ip);
      if k !in peers {
        NewPeerAgrees(peers, links, sessions, ip, 0);
        RefuseKeeps(peers, links, sessions, k, NewPeer(ip, 0), NewPeer(ip, 0));
        peers := peers[k := NewPeer(ip, 0)];
        totalPeer := totalPeer + 1;
      }
    }

    /** When the download ends every address may be tried again at once. */
    method DownloadFinish(finish: bool)
      requires Valid()
      modifies this`peers, this`uploadMode
      ensures Valid() && uploadMode == finish
      ensures peers.Keys == old(peers).Keys
      ensures forall k :: k in peers ==>
                peers[k] == if finish && !old(uploadMode) then old(peers)[k].(nextTry := 0, bannedTime := 0)
                            else old(peers)[k]
    {
      hide PeersAgree;
      hide CountersAgree;
      hide HashIP;
      hide Sessions;
      hide OfPeer;
      hide OfSession;
      if !uploadMode && finish {
        uploadMode := true;
        ForgetBansKeeps(peers, links, sessions);
        peers := ForgetBans(peers);
      } else {
        uploadMode := finish;
      }
    }
  }

  /** The entry found for an address is that address's own. */
  lemma SameAddress(peers: map<Key, PeerDetail>, l: Links, sessions: nat, ip: bv32)
    requires PeersAgree(peers, l, sessions) && KeyOf(ip) in peers
    ensures peers[KeyOf(ip)].ip == ip
  {
    assert PeerAgrees(KeyOf(ip), peers[KeyOf(ip)], l, sessions);
    HashIPInjective(peers[KeyOf(ip)].ip, ip);
  }

  /** So it is at every moment, as long as each outstanding attempt and link is reported once. */
  lemma AlwaysBalanced(c: PeerCenter)
    requires c.Valid()
    ensures c.nConnecting == Sum(c.sessionConnecting) == Total(c.peers, (p: PeerDetail) => |p.linkingRecord|)
    ensures c.nConnection == Sum(c.sessionConnection) == c.nMyInit + c.nPeerInit
    ensures c.nMyInit == Total(c.peers, (p: PeerDetail) => p.outLinkCount)
    ensures c.nPeerInit == Total(c.peers, (p: PeerDetail) => p.inLinkCount)
    ensures forall k :: k in c.peers ==>
              && |c.peers[k].linkingRecord| <= 1
              && c.peers[k].outLinkCount == |c.peers[k].linkRecord|
              && c.peers[k].outLinkCount + c.peers[k].inLinkCount + |c.peers[k].linkingRecord| <= Max(c.sessions, 4)
  {
    BooksBalance(c.peers, c.Books(), c.links, c.sessions);
  }

  // ------------------------------------------- who is left alone, over two operations

  /** An address whose link was closed with a ban or a delay is not handed out before both are over. */
  method BannedIsLeftAlone(c: PeerCenter, sess: nat, ip: bv32, accepted: bool, tick: nat, ban: nat, ghost link: Link,
                           asking: nat, connectable: bool, now: nat) returns (found: Option<(bv32, nat)>)
    requires c.Valid() && link.peer == KeyOf(ip) && link.session == sess && asking < c.sessions
    requires link in (if accepted then c.links.incoming else c.links.outgoing)
    requires now < ban || now < tick
    modifies c
    ensures c.Valid() && (found.Some? ==> found.value.0 != ip)
  {
    hide PeerCenter.Valid;
    c.CloseReport(sess, ip, accepted, tick, ban, link);
    found := c.GetPeerInfoToLink(asking, connectable, now);
  }

  /** After a failed attempt it is not handed out before its delay is over. */
  method FailedIsLeftAlone(c: PeerCenter, sess: nat, ip: bv32, tick: nat,
                           asking: nat, connectable: bool, now: nat) returns (found: Option<(bv32, nat)>)
    requires c.Valid() && Link(KeyOf(ip), sess, 0) in c.links.connecting && asking < c.sessions
    requires now < tick || connectable
    modifies c
    ensures c.Valid() && (found.Some? ==> found.value.0 != ip)
    ensures Link(KeyOf(ip), sess, 0) !in c.links.connecting
  {
    hide PeerCenter.Valid;
    c.LinkReport(sess, ip, false, tick);
    found := c.GetPeerInfoToLink(asking, connectable, now);
  }

  /** While one session is at it no session gets it. */
  method UnderWayIsLeftAlone(c: PeerCenter, first: nat, second: nat, connectable: bool, now: nat, later: nat)
    returns (one: Option<(bv32, nat)>, two: Option<(bv32, nat)>)
    requires c.Valid() && first < c.sessions && second < c.sessions
    modifies c
    ensures c.Valid() && (one.Some? && two.Some? ==> one.value.0 != two.value.0)
  {
    hide PeerCenter.Valid;
    one := c.GetPeerInfoToLink(first, connectable, now);
    two := c.GetPeerInfoToLink(second, connectable, later);
  }

  /** A session that is linked to it does not get it again, however long it waits. */
  method LinkedIsLeftAlone(c: PeerCenter, sess: nat, ip: bv32, tick: nat, connectable: bool, now: nat)
    returns (found: Option<(bv32, nat)>)
    requires c.Valid() && Link(KeyOf(ip), sess, 0) in c.links.connecting && sess < c.sessions
    modifies c
    ensures c.Valid() && (found.Some? ==> found.value.0 != ip)
    ensures Link(KeyOf(ip), sess, 0) !in c.links.connecting && Link(KeyOf(ip), sess, 0) in c.links.outgoing
  {
    hide PeerCenter.Valid;
    c.LinkReport(sess, ip, true, tick);
    found := c.GetPeerInfoToLink(sess, connectable, now);
  }

  /** An address known only from its own call has no port to be called at. */
  method CallerIsLeftAlone(c: PeerCenter, sess: nat, ip: bv32, now: nat, tick: nat,
                           asking: nat, connectable: bool, later: nat) returns (found: Option<(bv32, nat)>)
    requires c.Valid() && sess < c.sessions && asking < c.sessions && KeyOf(ip) !in c.peers
    modifies c
    ensures c.Valid() && (found.Some? ==> found.value.0 != ip)
  {
    hide PeerCenter.Valid;
    var ok, link := c.TryAcceptPeerLink(sess, ip, now, tick);
    found := c.GetPeerInfoToLink(asking, connectable, later);
  }
}
