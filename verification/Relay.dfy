/** The buffered TCP relay as an event-driven state machine. What the
    operating system answers to each call is a parameter. */
module Relay {
  import opened Wrappers

  type Sock = nat

  type Bytes = seq<bv8>

  const CHUNK: nat := 65536

  /** One socket's half of a pair. */
  datatype Peer = Peer(other: Sock, out: Bytes, connecting: bool, srcEof: bool, finSent: bool)

  type Peers = map<Sock, Peer>

  /** What has happened on the sockets so far: who is paired with whom, the
      bytes sent and read, the EOFs read, the FINs sent, and the pairs on which
      an operation failed. Closed sockets stay in the log. */
  datatype Log = Log(
    mate: map<Sock, Sock>,
    sent: map<Sock, Bytes>,
    read: map<Sock, Bytes>,
    eof: set<Sock>,
    fin: set<Sock>,
    failed: set<Sock>)

  /** Pairing is symmetric and every paired socket has its logs. */
  ghost predicate Paired(log: Log, s: Sock)
    requires s in log.mate
  {
    var t := log.mate[s];
    && t != s && t in log.mate && log.mate[t] == s
    && s in log.sent && s in log.read && t in log.sent && t in log.read
    && (s in log.failed <==> t in log.failed)
  }

  /** What holds of one direction of a pair: from log.mate[s] to s. */
  ghost predicate Direction(peers: Peers, log: Log, s: Sock)
    requires s in log.mate && Paired(log, s)
  {
    var t := log.mate[s];
    && (s in peers ==>
          var p := peers[s];
          && p.other == t && log.sent[s] + p.out == log.read[t] && (p.srcEof <==> t in log.eof)
          && (p.finSent ==> p.srcEof && p.out == [] && (s in log.fin || s in log.failed))
          && (p.connecting ==> log.sent[s] == []))
    && (s in log.fin ==> t in log.eof && log.sent[s] == log.read[t])
    && (s !in peers && s !in log.failed ==> s in log.fin && t in log.fin)
  }

  ghost predicate Consistent(peers: Peers, log: Log) {
    && (forall s :: s in peers ==> s in log.mate)
    && (forall s :: s in log.mate ==> Paired(log, s) && Direction(peers, log, s))
  }

  /** Everything read from either socket of the pair has been sent on the
      other, and so has its EOF. */
  ghost predicate Delivered(log: Log, s: Sock)
    requires s in log.mate && Paired(log, s)
  {
    var t := log.mate[s];
    && s in log.eof && t in log.eof && s in log.fin && t in log.fin
    && log.sent[s] == log.read[t] && log.sent[t] == log.read[s]
  }

  /** A socket that was closed without any error on its pair has seen both
      directions delivered completely. */
  lemma CleanCloseDelivered(peers: Peers, log: Log, s: Sock)
    requires Consistent(peers, log) && s in log.mate && s !in peers && s !in log.failed
    ensures Delivered(log, s)
  {
    assert Paired(log, s) && Direction(peers, log, s);
    assert Direction(peers, log, log.mate[s]);
  }

  /** At any time the bytes sent are a prefix of the bytes read across, in
      order, and a FIN follows all of them. */
  lemma InOrder(peers: Peers, log: Log, s: Sock)
    requires Consistent(peers, log) && s in log.mate && (s in peers || s in log.fin)
    ensures var t := log.mate[s]; s in log.sent && t in log.read && log.sent[s] <= log.read[t]
    ensures s in log.fin ==> log.mate[s] in log.eof && log.sent[s] == log.read[log.mate[s]]
  {
    assert Paired(log, s) && Direction(peers, log, s);
  }

  // ----- changes of one pair -----

  /** The states agree on every socket outside the pair of s. */
  ghost predicate OnlyPair(peers: Peers, log: Log, peers': Peers, log': Log, s: Sock) {
    && log'.mate == log.mate && s in log.mate
    && forall q :: q in log.mate && q != s && q != log.mate[s] ==>
      && (q in peers <==> q in peers') && (q in peers ==> peers'[q] == peers[q])
      && (q in log.sent ==> q in log'.sent && log'.sent[q] == log.sent[q])
      && (q in log.read ==> q in log'.read && log'.read[q] == log.read[q])
      && (q in log.eof <==> q in log'.eof) && (q in log.fin <==> q in log'.fin) &&
        (q in log.failed <==> q in log'.failed)
  }

  /** A change inside one pair keeps the invariant if it keeps it for the pair. */
  lemma PairChange(peers: Peers, log: Log, peers': Peers, log': Log, s: Sock)
    requires Consistent(peers, log) && OnlyPair(peers, log, peers', log', s)
    requires forall q :: q in peers' ==> q in log.mate
    requires Paired(log', s) && Paired(log', log.mate[s])
    requires Direction(peers', log', s) && Direction(peers', log', log.mate[s])
    ensures Consistent(peers', log')
  {
    forall q | q in log'.mate ensures Paired(log', q) && Direction(peers', log', q) {
      if q != s && q != log.mate[s] {
        assert Paired(log, q) && Direction(peers, log, q) && Paired(log, s);
        var r := log.mate[q];
        assert r != s && r != log.mate[s];
      }
    }
  }

  lemma Pair(peers: Peers, log: Log, s: Sock)
    requires Consistent(peers, log) && s in log.mate
    ensures var t := log.mate[s]; t in log.mate && log.mate[t] == s
    ensures Paired(log, s) && Paired(log, log.mate[s]) && Direction(peers, log, s) && Direction(peers, log, log.mate[s])
  {
    assert Paired(log, s);
  }

  // ----- what an operation does to peers and log -----

  function Fail(log: Log, s: Sock): Log
    requires s in log.mate
  {
    log.(failed := log.failed + {s, log.mate[s]})
  }

  lemma FailClose(peers: Peers, log: Log, s: Sock)
    requires Consistent(peers, log) && s in peers
    ensures s in log.mate && Consistent(peers - {s}, Fail(log, s))
  {
    Pair(peers, log, s);
    PairChange(peers, log, peers - {s}, Fail(log, s), s);
  }

  lemma DoneClose(peers: Peers, log: Log, s: Sock)
    requires Consistent(peers, log) && s in peers && peers[s].finSent
    requires peers[s].other in peers && peers[peers[s].other].finSent
    ensures Consistent(peers - {s}, log)
  {
    Pair(peers, log, s);
    PairChange(peers, log, peers - {s}, log, s);
  }

  /** A socket whose partner is gone is closed at its next read event. */
  lemma ReapClose(peers: Peers, log: Log, s: Sock)
    requires Consistent(peers, log) && s in peers && peers[s].other !in peers
    ensures Consistent(peers - {s}, log)
  {
    Pair(peers, log, s);
    PairChange(peers, log, peers - {s}, log, s);
  }

  function Send(log: Log, s: Sock, bytes: Bytes): Log
    requires s in log.sent
  {
    log.(sent := log.sent[s := log.sent[s] + bytes])
  }

  lemma SendStep(peers: Peers, log: Log, s: Sock, n: nat)
    requires Consistent(peers, log) && s in peers && n <= |peers[s].out| && !peers[s].connecting
    ensures s in log.sent
    ensures var p := peers[s]; Consistent(peers[s := p.(out := p.out[n..])], Send(log, s, p.out[..n]))
  {
    Pair(peers, log, s);
    var p := peers[s];
    var peers', log' := peers[s := p.(out := p.out[n..])], Send(log, s, p.out[..n]);
    var t := log.mate[s];
    assert log'.sent[s] + p.out[n..] == log.sent[s] + p.out by {
      assert p.out == p.out[..n] + p.out[n..];
    }
    if s in log.fin {
      assert log.sent[s] + p.out == log.sent[s] + [];
      assert p.out == [];
    }
    assert Direction(peers', log', s);
    assert Direction(peers', log', t);
    PairChange(peers, log, peers', log', s);
  }

  function Receive(log: Log, s: Sock, bytes: Bytes): Log
    requires s in log.read
  {
    if bytes == [] then log.(eof := log.eof + {s}) else log.(read := log.read[s := log.read[s] + bytes])
  }

  /** What is read goes to the partner's buffer, an EOF to its mark. */
  function Hand(dest: Peer, bytes: Bytes): Peer {
    if bytes == [] then dest.(srcEof := true) else dest.(out := dest.out + bytes)
  }

  lemma ReceiveStep(peers: Peers, log: Log, s: Sock, bytes: Bytes)
    requires Consistent(peers, log) && s in peers && peers[s].other in peers && (s in log.eof ==> bytes == [])
    ensures s in log.read
    ensures var t := peers[s].other; Consistent(peers[t := Hand(peers[t], bytes)], Receive(log, s, bytes))
  {
    Pair(peers, log, s);
    var t := log.mate[s];
    var peers', log' := peers[t := Hand(peers[t], bytes)], Receive(log, s, bytes);
    assert log.sent[t] + (peers[t].out + bytes) == (log.sent[t] + peers[t].out) + bytes;
    assert Direction(peers', log', t);
    assert Direction(peers', log', s);
    PairChange(peers, log, peers', log', s);
  }

  /** Bytes read after the partner has gone are lost; that happens only on a
      pair that failed, or they are an EOF. */
  lemma LostStep(peers: Peers, log: Log, s: Sock, bytes: Bytes)
    requires Consistent(peers, log) && s in peers && peers[s].other !in peers && (s in log.eof ==> bytes == [])
    ensures s in log.read && Consistent(peers, Receive(log, s, bytes))
    ensures bytes != [] ==> s in log.failed
  {
    Pair(peers, log, s);
    PairChange(peers, log, peers, Receive(log, s, bytes), s);
  }

  /** The EOF is forwarded once the buffer behind it is empty. */
  lemma FinStep(peers: Peers, log: Log, s: Sock)
    requires Consistent(peers, log) && s in peers && peers[s].srcEof && peers[s].out == []
    ensures Consistent(peers[s := peers[s].(finSent := true)], log.(fin := log.fin + {s}))
  {
    Pair(peers, log, s);
    var peers', log' := peers[s := peers[s].(finSent := true)], log.(fin := log.fin + {s});
    assert log.sent[s] + [] == log.sent[s];
    PairChange(peers, log, peers', log', s);
  }

  lemma ConnectStep(peers: Peers, log: Log, s: Sock)
    requires Consistent(peers, log) && s in peers
    ensures Consistent(peers[s := peers[s].(connecting := false)], log)
  {
    Pair(peers, log, s);
    PairChange(peers, log, peers[s := peers[s].(connecting := false)], log, s);
  }

  function Open(log: Log, c: Sock, u: Sock): Log {
    log.(mate := log.mate[c := u][u := c], sent := log.sent[c := []][u := []], read := log.read[c := []][u := []],
         eof := log.eof - {c, u}, fin := log.fin - {c, u}, failed := log.failed - {c, u})
  }

  function Opened(peers: Peers, c: Sock, u: Sock): Peers {
    peers[c := Peer(u, [], false, false, false)][u := Peer(c, [], true, false, false)]
  }

  lemma OpenStep(peers: Peers, log: Log, c: Sock, u: Sock)
    requires Consistent(peers, log) && c != u && c !in log.mate && u !in log.mate
    ensures Consistent(Opened(peers, c, u), Open(log, c, u))
  {
    var peers', log' := Opened(peers, c, u), Open(log, c, u);
    forall q | q in log'.mate ensures Paired(log', q) && Direction(peers', log', q) {
      if q != c && q != u {
        assert Paired(log, q) && Direction(peers, log, q);
      }
    }
  }

  // ----- whole runs -----

  /** log' continues log: bytes are only added, nothing is read after an EOF,
      and pairs, EOFs, FINs and failures stay. */
  ghost predicate Extends(log: Log, log': Log) {
    && (forall s :: s in log.mate ==> s in log'.mate && log'.mate[s] == log.mate[s])
    && (forall s :: s in log.mate && s in log.sent ==> s in log'.sent && log.sent[s] <= log'.sent[s])
    && (forall s :: s in log.mate && s in log.read ==>
          s in log'.read && log.read[s] <= log'.read[s] && (s in log.eof ==> log'.read[s] == log.read[s]))
    && (forall s :: s in log.mate ==>
          (s in log.eof ==> s in log'.eof) && (s in log.fin ==> s in log'.fin) &&
          (s in log.failed ==> s in log'.failed))
  }

  lemma ExtendsStep(a: Log, b: Log, c: Log)
    requires Extends(a, b) && Extends(b, c)
    ensures Extends(a, c)
  {
  }

  /** No byte is ever sent after the FIN. */
  lemma NothingAfterFin(peers: Peers, log: Log, peers': Peers, log': Log, s: Sock)
    requires Consistent(peers, log) && Consistent(peers', log') && Extends(log, log')
    requires s in log.mate && s in log.fin
    ensures s in log.sent && s in log'.sent && log'.sent[s] == log.sent[s]
  {
    assert Paired(log, s) && Direction(peers, log, s);
    assert Paired(log', s) && Direction(peers', log', s);
  }

  // ----- the relay -----

  /** Bytes that wait on a connected socket are retried when it becomes
      writable; only a socket that has itself read EOF may lose that interest. */
  ghost predicate Watched(peers: Peers, writing: set<Sock>, eof: set<Sock>, but: set<Sock>) {
    forall s :: s in peers && s !in but && !peers[s].connecting && peers[s].out != [] ==> s in writing || s in eof
  }

  /** Bytes wait on a connected socket that is not watched for writing. */
  predicate Stalled(peers: Peers, writing: set<Sock>, s: Sock) {
    s in peers && !peers[s].connecting && peers[s].out != [] && s !in writing
  }

  /** Only a socket that has itself read EOF is stalled. */
  lemma StalledAfterEof(peers: Peers, writing: set<Sock>, eof: set<Sock>, s: Sock)
    requires Watched(peers, writing, eof, {}) && Stalled(peers, writing, s)
    ensures s in eof
  {
  }

  /** Nothing happens to q: neither its entry nor its write interest changes. */
  predicate Spared(peers: Peers, writing: set<Sock>, peers': Peers, writing': set<Sock>, q: Sock) {
    && (q in peers' <==> q in peers) && (q in peers ==> peers'[q] == peers[q])
    && (q in writing' <==> q in writing)
  }

  lemma RestSpared(peers: Peers, writing: set<Sock>, peers': Peers, writing': set<Sock>, x: Sock)
    requires peers - {x} == peers' - {x} && writing - {x} == writing' - {x}
    ensures forall q :: q != x ==> Spared(peers, writing, peers', writing', q)
  {
    forall q | q != x ensures Spared(peers, writing, peers', writing', q) {
      assert q in peers <==> q in peers - {x};
      assert q in peers' <==> q in peers' - {x};
      assert q in writing <==> q in writing - {x};
      assert q in writing' <==> q in writing' - {x};
    }
  }

  lemma RestStalled(peers: Peers, writing: set<Sock>, peers': Peers, writing': set<Sock>, x: Sock)
    requires forall q :: q != x ==> Spared(peers, writing, peers', writing', q)
    ensures forall s :: s != x && Stalled(peers, writing, s) ==>
      Stalled(peers', writing', s) && peers'[s] == peers[s]
  {
    forall s | s != x && Stalled(peers, writing, s) ensures Stalled(peers', writing', s) && peers'[s] == peers[s] {
      assert Spared(peers, writing, peers', writing', s);
    }
  }

  /** What happens to the others when a socket is flushed and then read. */
  lemma SparedSince(was: Peers, watched: set<Sock>, open: Peers, watched': set<Sock>, log: Log, peers: Peers,
                    writing: set<Sock>, x: Sock, got: Received)
    requires Reads(was, x) && Reads(open, x) && was[x].other == open[x].other && Consistent(open, log)
    requires forall q :: q != x ==> Spared(was, watched, open, watched', q)
    requires forall q :: (q == x ==> q in peers && got != Chunk([])) && !Feeds(open, x, got, q) ==>
      Spared(open, watched', peers, writing, q)
    requires got == Chunk([]) && x in peers ==> peers[x] == open[x] && x !in writing
    ensures forall q :: q != x && !(got.Chunk? && was[x].other == q) ==> Spared(was, watched, peers, writing, q)
    ensures forall s :: Stalled(was, watched, s) && s in peers && !(got.Chunk? && x == was[s].other) &&
                        (s == x ==> Stalled(open, watched', s) && open[s] == was[s]) ==>
      Stalled(peers, writing, s) && peers[s] == was[s]
  {
    hide Consistent;
    forall q | q != x && !(got.Chunk? && was[x].other == q) ensures Spared(was, watched, peers, writing, q) {
      assert Spared(was, watched, open, watched', q) && Spared(open, watched', peers, writing, q);
    }
    NotOwnPartner(open, log, x);
    forall s | Stalled(was, watched, s) && s in peers && !(got.Chunk? && x == was[s].other) &&
               (s == x ==> Stalled(open, watched', s) && open[s] == was[s])
      ensures Stalled(peers, writing, s) && peers[s] == was[s]
    {
      assert s == x || Spared(was, watched, open, watched', s);
      MutualPartners(open, log, s, x);
      assert (s == x && got == Chunk([])) || Spared(open, watched', peers, writing, s);
    }
  }

  lemma AllSpared(peers: Peers, writing: set<Sock>)
    ensures forall q :: Spared(peers, writing, peers, writing, q)
  {
  }

  lemma ClosedSpares(peers: Peers, writing: set<Sock>, s: Sock)
    ensures forall q :: q != s ==> Spared(peers, writing, peers - {s}, writing - {s}, q)
  {
  }

  lemma ReceiveKeeps(log: Log, s: Sock, bytes: Bytes)
    requires s in log.read
    ensures Receive(log, s, bytes).failed == log.failed && log.eof <= Receive(log, s, bytes).eof
  {
  }

  lemma OpenSpares(peers: Peers, writing: set<Sock>, log: Log, c: Sock, u: Sock)
    requires Consistent(peers, log) && c !in log.mate && u !in log.mate && c != u
    ensures forall q :: q in peers ==>
      && Spared(peers, writing, Opened(peers, c, u), writing - {c} + {u}, q)
      && Spared(peers, writing, Opened(peers, c, u) - {c}, writing - {c, u}, q)
  {
  }

  /** An EOF is forwarded as soon as the buffer before it is empty. */
  ghost predicate Prompt(peers: Peers, but: set<Sock>) {
    forall s :: s in peers && s !in but && peers[s].srcEof && peers[s].out == [] ==> peers[s].finSent
  }

  /** What recv answers: BlockingIOError, some bytes (none at EOF), OSError. */
  datatype Received = Nothing | Chunk(bytes: Bytes) | Broken

  /** What send answers: so many bytes taken, BlockingIOError, OSError. */
  datatype Sending = Took(n: nat) | Full | Refused

  /** How the loop of `flush` ends. */
  datatype Ending = Drained | Waiting | Lost

  function Min(a: nat, b: nat): nat {
    if a < b then a else b
  }

  /** How many of n buffered bytes the answers take, and how it ends. */
  function Taken(n: nat, sends: seq<Sending>): (r: (nat, Ending))
    ensures r.0 <= n && (r.1.Drained? <==> r.0 == n)
    ensures (r.1.Lost? ==> !Untroubled(sends))
    decreases sends
  {
    if n == 0 then (0, Drained)
    else if sends == [] || sends[0].Full? then (0, Waiting)
    else if sends[0].Refused? || sends[0].n == 0 then (0, Lost)
    else
      var k := Min(sends[0].n, n);
      var rest := Taken(n - k, sends[1..]);
      (k + rest.0, rest.1)
  }

  /** All bytes that the answers take. */
  function Total(sends: seq<Sending>): nat {
    if sends == [] then 0
    else (if sends[0].Took? then sends[0].n else 0) + Total(sends[1..])
  }

  /** Only the f answers before the first that takes nothing are asked for:
      bytes stay if and only if these take too few, and the socket is lost if
      and only if the next answer then is a failure or zero. */
  lemma {:induction false} TakenIs(n: nat, sends: seq<Sending>, f: nat)
    requires f <= |sends| && forall i :: 0 <= i < f ==> sends[i].Took? && sends[i].n > 0
    requires f < |sends| ==> !(sends[f].Took? && sends[f].n > 0)
    ensures Taken(n, sends).0 == if Total(sends[..f]) < n then Total(sends[..f]) else n
    ensures Taken(n, sends).1.Drained? <==> n <= Total(sends[..f])
    ensures Taken(n, sends).1.Lost? <==> Total(sends[..f]) < n && f < |sends| && sends[f] != Full
  {
    if n > 0 && f > 0 {
      var k := Min(sends[0].n, n);
      assert sends[..f][1..] == sends[1..][..f - 1];
      TakenIs(n - k, sends[1..], f - 1);
    }
  }

  /** A buffer behind a socket that takes anything at all gets shorter. */
  lemma SomethingTaken(n: nat, sends: seq<Sending>)
    requires n > 0
    ensures Taken(n, sends).0 > 0 <==> sends != [] && sends[0].Took? && sends[0].n > 0
  {
  }

  /** No send fails. */
  predicate Untroubled(sends: seq<Sending>) {
    forall i :: 0 <= i < |sends| ==> sends[i].Full? || (sends[i].Took? && sends[i].n > 0)
  }

  /** The relay reads from s. */
  predicate Reads(peers: Peers, s: Sock) {
    s in peers && !peers[s].connecting
  }

  /** A read on s that goes to q. */
  predicate Feeds(peers: Peers, s: Sock, got: Received, q: Sock) {
    Reads(peers, s) && got.Chunk? && peers[s].other == q
  }

  /** The EOF behind a drained buffer has to be forwarded to s. */
  predicate Due(peers: Peers, s: Sock) {
    s in peers && peers[s].srcEof && !peers[s].finSent && peers[s].out == []
  }

  /** What `flush` does for s: the bytes taken are sent; what remains waits for
      the socket to become writable; behind a drained buffer goes the EOF. */
  ghost predicate FlushDone(peers: Peers, log: Log, peers': Peers, log': Log, writing: bool, s: Sock,
                            sends: seq<Sending>, shutdown: bool)
    requires s in peers && s in log.sent
  {
    var p := peers[s];
    var (k, ending) := Taken(|p.out|, sends);
    var kept := peers[s := p.(out := p.out[k..])];
    var sent := SentOf(log, s, p, k);
    match ending
    case Lost => peers' == kept - {s} && s in log.mate && log' == Fail(sent, s)
    case Waiting => peers' == kept && log' == sent && writing
    case Drained =>
      if !Due(kept, s) then peers' == kept && log' == sent && !writing
      else if shutdown then peers' == Forwarded(kept, s) && log' == sent.(fin := log.fin + {s})
      else peers' == kept - {s} && s in log.mate && log' == Fail(sent, s)
  }

  /** The same from the outside, for the entry p of s, the bytes sent on s
      before, and whether the partner has had its FIN. */
  predicate Flushed(p: Peer, before: Bytes, partnerDone: bool, peers': Peers, log': Log, writing: bool, s: Sock,
                    sends: seq<Sending>, shutdown: bool)
  {
    var (k, ending) := Taken(|p.out|, sends);
    && s in log'.sent && log'.sent[s] == before + p.out[..k]
    && match ending
       case Lost => s !in peers' && s in log'.failed
       case Waiting => s in peers' && peers'[s] == p.(out := p.out[k..]) && writing
       case Drained =>
         if !p.srcEof || p.finSent then s in peers' && peers'[s] == p.(out := []) && !writing
         else if !shutdown then s !in peers' && s in log'.failed
         else
           && s in log'.fin && !writing
           && if partnerDone then s !in peers'
              else s in peers' && peers'[s] == p.(out := [], finSent := true)
  }

  /** The partner of s is open and has had its FIN. */
  predicate PartnerDone(peers: Peers, s: Sock)
    requires s in peers
  {
    peers[s].other in peers && peers[peers[s].other].finSent
  }

  /** The entry of s is still p, with its FIN sent. */
  predicate Ended(p: Peer, peers: Peers, s: Sock) {
    s in peers && peers[s] == p.(finSent := true)
  }

  /** What is read from s reaches the entry of its open partner, and is sent on
      as far as that takes it; a partner that is still connecting keeps it. */
  predicate Delivers(peers: Peers, log: Log, peers': Peers, log': Log, writing: set<Sock>, s: Sock, bytes: Bytes,
                     sends: seq<Sending>, shutdown: bool)
    requires s in peers && peers[s].other in peers
  {
    var t := peers[s].other;
    var p := if bytes == [] then peers[t].(srcEof := true) else peers[t].(out := peers[t].out + bytes);
    && t in log.sent
    && (!p.connecting ==>
          Flushed(p, log.sent[t], PartnerDone(peers, t), peers', log', t in writing, t, sends, shutdown))
    && (p.connecting ==> log'.sent == log.sent)
    && (p.connecting ==>
          if bytes != [] || p.finSent || p.out != [] then t in peers' && peers'[t] == p
          else if !shutdown then t !in peers' && t in log'.failed
          else t in log'.fin && if PartnerDone(peers, t) then t !in peers' else Ended(p, peers', t))
  }

  /** The bytes read from s, or its EOF, are in the log. */
  predicate Heard(log: Log, log': Log, s: Sock, bytes: Bytes) {
    && s in log.read
    && log'.read == (if bytes == [] then log.read else log.read[s := log.read[s] + bytes])
    && log'.eof == if bytes == [] then log.eof + {s} else log.eof
  }

  lemma FlushedIs(peers: Peers, log: Log, peers': Peers, log': Log, writing: bool, s: Sock, sends: seq<Sending>,
                  shutdown: bool)
    requires s in peers && s in log.sent && FlushDone(peers, log, peers', log', writing, s, sends, shutdown)
    requires peers[s].other != s && (s !in peers' ==> !writing)
    requires Taken(|peers[s].out|, sends).1.Drained? ==> !writing
    ensures Flushed(peers[s], log.sent[s], PartnerDone(peers, s), peers', log', writing, s, sends, shutdown)
    ensures var out := peers[s].out; s in log'.sent && log'.sent[s] == log.sent[s] + out[..Taken(|out|, sends).0]
  {
    hide Taken;
  }

  /** The log after the first k bytes waiting for s have been sent. */
  function SentOf(log: Log, s: Sock, p: Peer, k: nat): Log
    requires s in log.sent && k <= |p.out|
  {
    Send(log, s, p.out[..k])
  }

  lemma SentFacts(log: Log, s: Sock, p: Peer, k: nat)
    requires s in log.sent && k <= |p.out|
    ensures var sent := SentOf(log, s, p, k); s in sent.sent && sent == log.(sent := sent.sent)
  {
  }

  lemma FailKeeps(log: Log, s: Sock)
    ensures s in log.mate ==> Fail(log, s) == log.(failed := Fail(log, s).failed)
  {
  }

  lemma SentNothing(log: Log, s: Sock, p: Peer)
    requires s in log.sent
    ensures SentOf(log, s, p, 0) == log
  {
    assert log.sent[s] + p.out[..0] == log.sent[s];
  }

  lemma SentMore(log: Log, s: Sock, p: Peer, k: nat, n: nat)
    requires s in log.sent && k + n <= |p.out|
    ensures Send(SentOf(log, s, p, k), s, p.out[k..][..n]) == SentOf(log, s, p, k + n)
    ensures p.out[k..][n..] == p.out[k + n..]
  {
    assert (log.sent[s] + p.out[..k]) + p.out[k..][..n] == log.sent[s] + p.out[..k + n];
  }

  /** Sending n more bytes after the first k. */
  lemma SendMore(start: Log, log: Log, peers: Peers, writing: set<Sock>, s: Sock, p: Peer, k: nat, n: nat)
    requires s in start.sent && s in peers && !p.connecting && k + n <= |p.out| && peers[s] == p.(out := p.out[k..])
    requires log == SentOf(start, s, p, k) && Consistent(peers, log) && Extends(start, log)
    requires Watched(peers, writing, log.eof, {s}) && Prompt(peers, {s})
    ensures s in log.sent && Send(log, s, peers[s].out[..n]) == SentOf(start, s, p, k + n)
    ensures var peers', log' := peers[s := p.(out := p.out[k + n..])], SentOf(start, s, p, k + n);
      && Consistent(peers', log') && Extends(start, log') && Watched(peers', writing, log'.eof, {s}) &&
        Prompt(peers', {s})
      && peers[s].(out := peers[s].out[n..]) == p.(out := p.out[k + n..])
  {
    hide Consistent, Extends, SentOf;
    SendStep(peers, log, s, n);
    SentFacts(start, s, p, k);
    SendExtends(start, log, peers, s, peers[s].out[..n]);
    SentMore(start, s, p, k, n);
    SentFacts(start, s, p, k + n);
  }

  lemma NothingTaken(sends: seq<Sending>)
    ensures Taken(0, sends) == (0, Drained)
  {
  }

  /** One more answer. */
  lemma TakenNext(n: nat, k: nat, sends: seq<Sending>, i: nat)
    requires k < n && i <= |sends|
    ensures i == |sends| || sends[i].Full? ==> Taken(n - k, sends[i..]) == (0, Waiting)
    ensures i < |sends| && !sends[i].Full? && (sends[i].Refused? || sends[i].n == 0) ==>
      Taken(n - k, sends[i..]) == (0, Lost)
    ensures i < |sends| && sends[i].Took? && sends[i].n > 0 ==>
      var m := Min(sends[i].n, n - k);
      var rest := Taken(n - k - m, sends[i + 1..]);
      Taken(n - k, sends[i..]) == (m + rest.0, rest.1)
  {
    if i < |sends| {
      assert sends[i..][0] == sends[i] && sends[i..][1..] == sends[i + 1..];
    }
  }

  /** The peers after the EOF has been forwarded to s. */
  function Forwarded(peers: Peers, s: Sock): Peers
    requires s in peers
  {
    if peers[s].other in peers && peers[peers[s].other].finSent then peers - {s}
    else peers[s := peers[s].(finSent := true)]
  }

  lemma ForwardedRest(peers: Peers, s: Sock)
    requires s in peers
    ensures Forwarded(peers, s) - {s} == peers - {s}
  {
  }

  /** What the source looks up in the dictionary of peers: sockets, and once a
      `Peer` object. */
  datatype Key = Socket(s: Sock) | Object(p: Peer)

  /** Entries are only ever stored under sockets. */
  function Keys(peers: Peers): set<Key> {
    set s | s in peers :: Socket(s)
  }

  class Relay {
    var peers: Peers
    var writing: set<Sock>
    ghost var log: Log

    ghost predicate ValidBut(but: set<Sock>)
      reads this
    {
      Consistent(peers, log) && Watched(peers, writing, log.eof, but) && Prompt(peers, but)
    }

    ghost predicate Valid()
      reads this
    {
      ValidBut({})
    }

    constructor ()
      ensures Valid() && peers == map[] && log == Log(map[], map[], map[], {}, {}, {})
    {
      peers, writing := map[], {};
      log := Log(map[], map[], map[], {}, {}, {});
    }

    /** `close_pair`: meant for both sockets, but the partner is looked up under
        the `Peer` object, which misses; a partner that is open stays open. */
    method ClosePair(sock: Sock)
      modifies this
      ensures peers == old(peers) - {sock} && writing == old(writing) - {sock} && log == old(log)
      ensures forall q :: q in old(peers) && q != sock ==> q in peers && peers[q] == old(peers)[q]
    {
      var peer := if sock in peers then Some(peers[sock]) else None;
      peers := peers - {sock};
      writing := writing - {sock};
      if peer.Some? && Object(peer.value) in Keys(peers) {
        assert false; // where the source closes the partner
      }
    }

    method Watch(sock: Sock, write: bool)
      modifies this`writing
      ensures writing == if write then old(writing) + {sock} else old(writing) - {sock}
    {
      writing := if write then writing + {sock} else writing - {sock};
    }

    /** Close after a failed operation. */
    method CloseFailed(sock: Sock)
      requires ValidBut({sock}) && sock in peers
      modifies this
      ensures Valid() && Extends(old(log), log) && sock in old(log).mate && log == Fail(old(log), sock)
      ensures peers == old(peers) - {sock} && writing == old(writing) - {sock}
    {
      FailClose(peers, log, sock);
      ghost var failed := Fail(log, sock);
      ClosePair(sock);
      log := failed;
    }

    /** `forward_eof`: shut down the write side behind a drained buffer; the
        second goodbye of a pair closes the socket. */
    method ForwardEof(sock: Sock, shutdown: bool)
      requires ValidBut({sock}) && Watched(peers, writing, log.eof, {})
      modifies this
      ensures Valid() && Extends(old(log), log)
      ensures !Due(old(peers), sock) ==> peers == old(peers) && log == old(log) && writing == old(writing)
      ensures Due(old(peers), sock) && shutdown ==>
        peers == Forwarded(old(peers), sock) && log == old(log).(fin := old(log).fin + {sock})
      ensures Due(old(peers), sock) && !shutdown ==>
        sock in old(log).mate && peers == old(peers) - {sock} && log == Fail(old(log), sock)
      ensures Due(old(peers), sock) && shutdown ==>
        if PartnerDone(old(peers), sock) then sock !in peers
        else sock in peers && peers[sock] == old(peers)[sock].(finSent := true)
      ensures Due(old(peers), sock) ==> writing == if sock in peers then old(writing) else old(writing) - {sock}
    {
      hide Consistent, Extends;
      if sock !in peers || !peers[sock].srcEof || peers[sock].finSent || peers[sock].out != [] {
        Same(log);
        return;
      }
      ghost var before := peers;
      FinStep(peers, log, sock);
      var peer := peers[sock];
      peers := peers[sock := peer.(finSent := true)];
      if !shutdown {
        ghost var start := log;
        FinFailed(before, log, sock);
        assert peers - {sock} == before - {sock};
        ClosePair(sock);
        log := Fail(log, sock);
        return;
      }
      FinExtends(log, sock);
      NotOwnPartner(before, log, sock);
      log := log.(fin := log.fin + {sock});
      if peer.other in peers && peers[peer.other].finSent {
        DoneClose(peers, log, sock);
        assert peers - {sock} == before - {sock};
        ClosePair(sock);
      }
    }

    /** The loop of `flush`: send until nothing is left or the socket takes no more. */
    method SendAll(sock: Sock, sends: seq<Sending>) returns (ending: Ending)
      requires ValidBut({sock}) && Reads(peers, sock)
      modifies this`peers, this`log
      ensures ValidBut({sock}) && Extends(old(log), log) && sock in old(log).sent
      ensures var p := old(peers)[sock]; var (k, end) := Taken(|p.out|, sends);
        ending == end && peers == old(peers)[sock := p.(out := p.out[k..])] && log == SentOf(old(log), sock, p, k)
    {
      hide Consistent, Extends, Taken, SentOf, Untroubled, Watched, Prompt, Send;
      ghost var start, all, p := log, peers, peers[sock];
      Same(log);
      SendStep(peers, log, sock, 0);
      SentNothing(log, sock, p);
      var i := 0;
      ghost var k: nat := 0;
      while peers[sock].out != []
        invariant i <= |sends| && k <= |p.out|
        invariant Taken(|p.out|, sends) == (k + Taken(|p.out| - k, sends[i..]).0, Taken(|p.out| - k, sends[i..]).1)
        invariant peers == all[sock := p.(out := p.out[k..])] && sock in start.sent && log == SentOf(start, sock, p, k)
        invariant ValidBut({sock}) && Extends(start, log)
        decreases |peers[sock].out|
      {
        TakenNext(|p.out|, k, sends, i);
        if i == |sends| || sends[i].Full? {
          return Waiting;
        }
        var answer := sends[i];
        if answer.Refused? || answer.n == 0 {
          return Lost;
        }
        var sent := Min(answer.n, |peers[sock].out|);
        SendMore(start, log, peers, writing, sock, p, k, sent);
        log := Send(log, sock, peers[sock].out[..sent]);
        peers := peers[sock := peers[sock].(out := peers[sock].out[sent..])];
        k, i := k + sent, i + 1;
      }
      assert k == |p.out|;
      NothingTaken(sends[i..]);
      ending := Drained;
    }

    /** `flush`: send what is buffered; keep the write interest until it is gone. */
    method Flush(sock: Sock, sends: seq<Sending>, shutdown: bool)
      requires ValidBut({sock})
      modifies this
      ensures ValidBut({sock}) && Extends(old(log), log)
      ensures peers - {sock} == old(peers) - {sock} && writing - {sock} == old(writing) - {sock}
      ensures log.read == old(log).read && log.eof == old(log).eof
      ensures !Reads(old(peers), sock) ==> peers == old(peers) && log == old(log) && writing == old(writing)
      ensures Reads(old(peers), sock) ==> Valid() && sock in log.sent && sock in old(log).sent
      ensures sock in peers ==>
        && sock in old(peers) && peers[sock].connecting == old(peers)[sock].connecting
        && peers[sock].other == old(peers)[sock].other
      ensures Reads(old(peers), sock) ==>
        FlushDone(old(peers), old(log), peers, log, sock in writing, sock, sends, shutdown)
      ensures Reads(old(peers), sock) ==>
        Flushed(old(peers)[sock], old(log).sent[sock], PartnerDone(old(peers), sock), peers, log, sock in writing, sock,
                sends, shutdown)
      ensures Reads(old(peers), sock) ==>
        var out := old(peers)[sock].out;
        && log.sent[sock] == old(log).sent[sock] + out[..Taken(|out|, sends).0]
        && (sock in peers ==> peers[sock].out == out[Taken(|out|, sends).0..])
    {
      hide Consistent, Extends, Taken, SentOf, Untroubled, Due, Forwarded, Fail;
      Same(log);
      if sock !in peers || peers[sock].connecting {
        return;
      }
      ghost var start, all, p := log, peers, peers[sock];
      NotOwnPartner(peers, log, sock);
      var ending := SendAll(sock, sends);
      ghost var mid, k := log, Taken(|p.out|, sends).0;
      SentFacts(start, sock, p, k);
      FailKeeps(mid, sock);
      assert peers - {sock} == all - {sock};
      match ending {
        case Waiting =>
          Watch(sock, true);
        case Lost =>
          CloseFailed(sock);
          ExtendsStep(start, mid, log);
        case Drained =>
          Watch(sock, false);
          ForwardedRest(peers, sock);
          ForwardEof(sock, shutdown);
          ExtendsStep(start, mid, log);
      }
      hide FlushDone, Flushed, PartnerDone;
      FlushedIs(all, start, peers, log, sock in writing, sock, sends, shutdown);
    }

    /** `accept`: a client and the socket on which its upstream connect starts. */
    method Accept(client: Sock, upstream: Sock, refused: bool)
      requires Valid() && client != upstream && client !in log.mate && upstream !in log.mate
      modifies this
      ensures Valid() && Extends(old(log), log)
      ensures refused ==>
        client in Open(old(log), client, upstream).mate && log == Fail(Open(old(log), client, upstream), client)
      ensures refused ==>
        peers == Opened(old(peers), client, upstream) - {client} && writing == old(writing) - {client, upstream}
      ensures !refused ==> log == Open(old(log), client, upstream) && peers == Opened(old(peers), client, upstream)
      ensures !refused ==> writing == old(writing) - {client} + {upstream}
      ensures !refused ==> client in peers && peers[client] == Peer(upstream, [], false, false, false)
      ensures upstream in peers && peers[upstream] == Peer(client, [], true, false, false)
      ensures refused ==> client !in peers && client in log.failed
      ensures forall q :: q in old(peers) ==> Spared(old(peers), old(writing), peers, writing, q)
    {
      hide Consistent, Extends, Open, Opened, Watched, Spared;
      ghost var start := log;
      OpenStep(peers, log, client, upstream);
      OpenedIs(peers, client, upstream);
      OpenSpares(peers, writing, log, client, upstream);
      OpenFacts(peers, writing, log, client, upstream);
      peers := Opened(peers, client, upstream);
      log := Open(log, client, upstream);
      writing := writing - {client, upstream};
      if refused {
        ghost var mid := log;
        CloseFailed(client);
        ExtendsStep(start, mid, log);
        assert writing == old(writing) - {client, upstream};
        return;
      }
      Watch(client, false);
      Watch(upstream, true);
      assert writing == old(writing) - {client} + {upstream};
    }

    /** `connected`: the verdict of the upstream connect. */
    method Connected(sock: Sock, refused: bool, sends: seq<Sending>, shutdown: bool)
      requires Valid() && (sock in peers ==> peers[sock].connecting)
      modifies this
      ensures Valid() && Extends(old(log), log)
      ensures log.read == old(log).read && log.eof == old(log).eof && peers - {sock} == old(peers) - {sock}
      ensures writing - {sock} == old(writing) - {sock}
      ensures sock !in old(peers) ==> peers == old(peers) && log == old(log)
      ensures sock in old(peers) && refused ==> sock !in peers && sock in old(log).mate && log == Fail(old(log), sock)
      ensures sock in old(peers) && !refused ==>
        && sock in old(log).sent && sock in log.sent
        && log.sent[sock] == old(log).sent[sock] + old(peers)[sock].out[..Taken(|old(peers)[sock].out|, sends).0]
      ensures sock in old(peers) && !refused && shutdown && Untroubled(sends) ==> log.failed == old(log).failed
      ensures sock in old(peers) && !refused ==>
        Flushed(old(peers)[sock].(connecting := false), old(log).sent[sock], PartnerDone(old(peers), sock), peers, log,
                sock in writing, sock, sends, shutdown)
      ensures sock in old(peers) && refused ==> sock in log.failed && sock !in writing
      ensures sock in peers ==> !peers[sock].connecting
    {
      hide Consistent, Extends;
      Same(log);
      if sock !in peers {
        return;
      }
      if refused {
        CloseFailed(sock);
        return;
      }
      ConnectStep(peers, log, sock);
      ghost var before := peers;
      peers := peers[sock := peers[sock].(connecting := false)];
      assert peers - {sock} == before - {sock};
      Watch(sock, false);
      Flush(sock, sends, shutdown);
    }

    /** `relay_read`: read a chunk, empty at EOF, and pass it on. A socket that
        has read EOF never yields data again. An EOF also drops the reader's own write
        interest, whatever still waits on it. */
    method RelayRead(sock: Sock, got: Received, sends: seq<Sending>, shutdown: bool)
      requires Valid() && (got.Chunk? ==> |got.bytes| <= CHUNK && (sock in log.eof ==> got.bytes == []))
      modifies this
      ensures Valid() && Extends(old(log), log)
      ensures sock !in old(peers) || old(peers)[sock].connecting || got.Nothing? ==>
        peers == old(peers) && log == old(log)
      ensures Reads(old(peers), sock) && got.Broken? ==>
        sock in old(log).mate && peers == old(peers) - {sock} && log == Fail(old(log), sock)
      ensures Reads(old(peers), sock) && got.Chunk? ==>
        && sock in old(log).read && log.read == Receive(old(log), sock, got.bytes).read
        && log.eof == Receive(old(log), sock, got.bytes).eof
      ensures Reads(old(peers), sock) && got.Chunk? && old(peers)[sock].other !in old(peers) ==>
        sock in old(log).read && peers == old(peers) - {sock} && log == Receive(old(log), sock, got.bytes)
      ensures Reads(old(peers), sock) && got.Chunk? && old(peers)[sock].other in old(peers) ==>
        && sock in peers && peers[sock] == old(peers)[sock] && (got.bytes == [] ==> sock !in writing)
        && (shutdown && Untroubled(sends) ==> log.failed == old(log).failed)
      ensures Reads(old(peers), sock) && got.Chunk? && Reads(old(peers), old(peers)[sock].other) ==>
        var t := old(peers)[sock].other;
        && sock in old(log).read && t in Receive(old(log), sock, got.bytes).sent
        && FlushDone(old(peers)[t := Hand(old(peers)[t], got.bytes)], Receive(old(log), sock, got.bytes), peers, log,
                     t in writing, t, sends, shutdown)
      ensures Reads(old(peers), sock) && got.Chunk? ==> Heard(old(log), log, sock, got.bytes)
      ensures Reads(old(peers), sock) && got.Chunk? && old(peers)[sock].other in old(peers) ==>
        Delivers(old(peers), old(log), peers, log, writing, sock, got.bytes, sends, shutdown)
      ensures Reads(old(peers), sock) && got == Chunk([]) && old(peers)[sock].other in old(peers) ==>
        (Stalled(peers, writing, sock) <==> old(peers)[sock].out != [])
      ensures forall q :: (q == sock ==> q in peers && got != Chunk([])) && !Feeds(old(peers), sock, got, q) ==>
        Spared(old(peers), old(writing), peers, writing, q)
    {
      hide Consistent, Extends, Spared, FlushDone, Hand, Receive, Untroubled, Delivers;
      Same(log);
      if sock !in peers || peers[sock].connecting || got.Nothing? {
        AllSpared(peers, writing);
        return;
      }
      ghost var open, watched := peers, writing;
      if got.Broken? {
        CloseFailed(sock);
        ClosedSpares(open, watched, sock);
        return;
      }
      var data := got.bytes;
      if peers[sock].other !in peers {
        LostStep(peers, log, sock, data);
        ReceiveExtends(log, sock, data);
        log := Receive(log, sock, data);
        ReapClose(peers, log, sock);
        ReceiveKeeps(old(log), sock, data);
        ReceiveHeard(old(log), sock, data);
        ClosePair(sock);
        ClosedSpares(open, watched, sock);
        return;
      }
      HandOver(sock, data, sends, shutdown);
    }

    /** What was read goes to the open partner, an EOF by its mark. */
    method HandOver(sock: Sock, data: Bytes, sends: seq<Sending>, shutdown: bool)
      requires Valid() && Reads(peers, sock) && peers[sock].other in peers && (sock in log.eof ==> data == [])
      modifies this
      ensures Valid() && Extends(old(log), log) && sock in old(log).read
      ensures log.read == Receive(old(log), sock, data).read && log.eof == Receive(old(log), sock, data).eof
      ensures Heard(old(log), log, sock, data)
      ensures Delivers(old(peers), old(log), peers, log, writing, sock, data, sends, shutdown)
      ensures sock in peers && peers[sock] == old(peers)[sock] && (data == [] ==> sock !in writing)
      ensures shutdown && Untroubled(sends) ==> log.failed == old(log).failed
      ensures Reads(old(peers), old(peers)[sock].other) ==>
        var t := old(peers)[sock].other;
        && t in Receive(old(log), sock, data).sent
        && FlushDone(old(peers)[t := Hand(old(peers)[t], data)], Receive(old(log), sock, data), peers, log,
                     t in writing, t, sends, shutdown)
      ensures forall q :: (q == sock ==> data != []) && q != old(peers)[sock].other ==>
        Spared(old(peers), old(writing), peers, writing, q)
    {
      hide Consistent, Extends, FlushDone, Untroubled, Flushed;
      var other := peers[sock].other;
      NotOwnPartner(peers, log, sock);
      NotOwnPartner(peers, log, other);
      ghost var start := log;
      ReceiveStep(peers, log, sock, data);
      ReceiveExtends(log, sock, data);
      ReceiveHeard(log, sock, data);
      log := Receive(log, sock, data);
      ghost var mid := log;
      peers := peers[other := Hand(peers[other], data)];
      if data == [] {
        Watch(sock, false);
      }
      ghost var handed, watched := peers, writing;
      assert PartnerDone(handed, other) == PartnerDone(old(peers), other);
      PassOn(other, data == [], sends, shutdown);
      RestSpared(handed, watched, peers, writing, other);
      assert Spared(handed, watched, peers, writing, sock);
      forall q | (q == sock ==> data != []) && q != other ensures Spared(old(peers), old(writing), peers, writing, q) {
        assert Spared(handed, watched, peers, writing, q);
      }
      ExtendsStep(start, mid, log);
    }

    /** The calls of `flush` and, at EOF, `forward_eof` for the other socket. */
    method PassOn(other: Sock, eof: bool, sends: seq<Sending>, shutdown: bool)
      requires ValidBut({other}) && other in peers
      requires !eof ==> !Due(peers, other) || !peers[other].connecting
      modifies this
      ensures Valid() && Extends(old(log), log)
      ensures peers - {other} == old(peers) - {other} && writing - {other} == old(writing) - {other}
      ensures log.read == old(log).read && log.eof == old(log).eof
      ensures shutdown && Untroubled(sends) ==> log.failed == old(log).failed
      ensures Reads(old(peers), other) ==>
        other in old(log).sent && FlushDone(old(peers), old(log), peers, log, other in writing, other, sends, shutdown)
      ensures Reads(old(peers), other) ==>
        other in old(log).sent &&
        Flushed(old(peers)[other], old(log).sent[other], PartnerDone(old(peers), other), peers, log, other in writing,
                other, sends, shutdown)
      ensures old(peers)[other].connecting && !eof ==> peers == old(peers) && log == old(log)
      ensures old(peers)[other].connecting ==> log.sent == old(log).sent
      ensures old(peers)[other].connecting && eof && !Due(old(peers), other) ==> peers == old(peers) && log == old(log)
      ensures old(peers)[other].connecting && eof && Due(old(peers), other) ==>
        if !shutdown then other !in peers && other in log.failed
        else
          && other in log.fin
          && if PartnerDone(old(peers), other) then other !in peers else Ended(old(peers)[other], peers, other)
    {
      hide Consistent, Extends;
      ghost var start := log;
      Flush(other, sends, shutdown);
      if eof {
        ghost var flushed := log;
        assert Reads(old(peers), other) ==> !Due(peers, other);
        ForwardEof(other, shutdown);
        ExtendsStep(start, flushed, log);
      }
    }

    /** What the event loop does for a ready socket that is connected. */
    method ReadyOpen(sock: Sock, canRead: bool, canWrite: bool, got: Received, writes: seq<Sending>, wrote: bool,
                     sends: seq<Sending>, shutdown: bool)
      requires Valid() && (got.Chunk? ==> |got.bytes| <= CHUNK && (sock in log.eof ==> got.bytes == []))
      requires Reads(peers, sock)
      modifies this
      ensures Valid() && Extends(old(log), log) && sock in old(log).sent
      ensures !canRead && !canWrite ==> peers == old(peers) && log == old(log)
      ensures !canRead ==> log.read == old(log).read && log.eof == old(log).eof
      ensures canRead && got.Chunk? && sock in peers ==> Heard(old(log), log, sock, got.bytes)
      ensures canRead && got.Broken? ==> sock !in peers
      ensures canWrite && !canRead ==>
        Flushed(old(peers)[sock], old(log).sent[sock], PartnerDone(old(peers), sock), peers, log, sock in writing, sock,
                writes, wrote)
      ensures canWrite ==>
        var out := old(peers)[sock].out;
        && sock in log.sent && old(log).sent[sock] + out[..Taken(|out|, writes).0] <= log.sent[sock]
      ensures canRead && !canWrite && got.Chunk? ==>
        && Heard(old(log), log, sock, got.bytes)
        && (old(peers)[sock].other in old(peers) ==>
              Delivers(old(peers), old(log), peers, log, writing, sock, got.bytes, sends, shutdown))
        && (old(peers)[sock].other !in old(peers) ==> sock !in peers)
      ensures canWrite && sock in peers ==>
        var out := old(peers)[sock].out;
        peers[sock].out == out[Taken(|out|, writes).0..]
      ensures canRead && got == Chunk([]) ==> sock !in writing || sock !in peers
      ensures canRead && !canWrite && got.Nothing? ==> peers == old(peers) && log == old(log)
      ensures forall q :: q != sock && !(canRead && got.Chunk? && old(peers)[sock].other == q) ==>
        Spared(old(peers), old(writing), peers, writing, q)
      ensures forall s :: Stalled(old(peers), old(writing), s) && s in peers && !(s == sock && canWrite) &&
                          !(canRead && got.Chunk? && sock == old(peers)[s].other) ==>
        Stalled(peers, writing, s) && peers[s] == old(peers)[s]
    {
      hide Consistent, Extends, Flushed, Delivers, FlushDone, Taken, Untroubled, PartnerDone, Fail, Hand, Spared;
      Same(log);
      NotOwnPartner(peers, log, sock);
      ghost var start := log;
      if canWrite {
        Flush(sock, writes, wrote);
      }
      ghost var mid, open, watched := log, peers, writing;
      RestSpared(old(peers), old(writing), open, watched, sock);
      RestStalled(old(peers), old(writing), open, watched, sock);
      if sock in peers && canRead {
        assert Reads(open, sock) && mid.read == start.read && mid.eof == start.eof;
        RelayRead(sock, got, sends, shutdown);
        ExtendsStep(start, mid, log);
        assert got.Chunk? ==> Heard(mid, log, sock, got.bytes);
        if canWrite {
          SentGrows(start, mid, log, sock);
        }
        assert open[sock].other == old(peers)[sock].other;
        SparedSince(old(peers), old(writing), open, watched, mid, peers, writing, sock, got);
      }
    }

    /** What the event loop does for one ready socket. */
    method Ready(sock: Sock, canRead: bool, canWrite: bool, refused: bool, got: Received,
                 writes: seq<Sending>, wrote: bool, sends: seq<Sending>, shutdown: bool)
      requires Valid() && (got.Chunk? ==> |got.bytes| <= CHUNK && (sock in log.eof ==> got.bytes == []))
      modifies this
      ensures Valid() && Extends(old(log), log)
      ensures !canRead && !canWrite ==> peers == old(peers) && log == old(log)
      ensures !canRead || (sock in old(peers) && old(peers)[sock].connecting) ==>
        log.read == old(log).read && log.eof == old(log).eof
      ensures sock in old(peers) && old(peers)[sock].connecting && canWrite ==>
        sock in peers ==> !peers[sock].connecting
      ensures Reads(old(peers), sock) && canRead && got.Chunk? && sock in peers ==>
        Heard(old(log), log, sock, got.bytes)
      ensures Reads(old(peers), sock) && canRead && got.Broken? ==> sock !in peers
      ensures Reads(old(peers), sock) && canWrite && !canRead ==>
        sock in old(log).sent &&
        Flushed(old(peers)[sock], old(log).sent[sock], PartnerDone(old(peers), sock), peers, log, sock in writing, sock,
                writes, wrote)
      ensures Reads(old(peers), sock) && canWrite ==>
        var out := old(peers)[sock].out;
        && sock in old(log).sent && sock in log.sent
        && old(log).sent[sock] + out[..Taken(|out|, writes).0] <= log.sent[sock]
      ensures Reads(old(peers), sock) && canRead && !canWrite && got.Chunk? ==>
        && Heard(old(log), log, sock, got.bytes)
        && (old(peers)[sock].other in old(peers) ==>
              Delivers(old(peers), old(log), peers, log, writing, sock, got.bytes, sends, shutdown))
        && (old(peers)[sock].other !in old(peers) ==> sock !in peers)
      ensures sock in old(peers) && old(peers)[sock].connecting && canWrite && refused ==>
        sock !in peers && sock in log.failed
      ensures sock in old(peers) && old(peers)[sock].connecting && canWrite && !refused ==>
        sock in old(log).sent &&
        Flushed(old(peers)[sock].(connecting := false), old(log).sent[sock], PartnerDone(old(peers), sock), peers, log,
                sock in writing, sock, writes, wrote)
      ensures Reads(old(peers), sock) && canWrite && sock in peers ==>
        var out := old(peers)[sock].out;
        && peers[sock].out == out[Taken(|out|, writes).0..]
        && (out != [] && writes != [] && writes[0].Took? && writes[0].n > 0 ==> |peers[sock].out| < |out|)
      ensures Reads(old(peers), sock) && canRead && got == Chunk([]) ==> sock !in writing || sock !in peers
      ensures Reads(old(peers), sock) && canRead && !canWrite && got.Nothing? ==> peers == old(peers) && log == old(log)
      ensures forall q :: q != sock && !(canRead && Feeds(old(peers), sock, got, q)) ==>
        Spared(old(peers), old(writing), peers, writing, q)
      ensures forall s :: Stalled(old(peers), old(writing), s) && s in peers && !(s == sock && canWrite) &&
                          !(canRead && got.Chunk? && sock == old(peers)[s].other) ==>
        Stalled(peers, writing, s) && peers[s] == old(peers)[s]
    {
      hide Consistent, Extends, Flushed, Delivers, Heard, FlushDone, Taken, Untroubled, PartnerDone;
      Same(log);
      if sock !in peers {
        return;
      }
      NotOwnPartner(peers, log, sock);
      if peers[sock].connecting {
        if canWrite {
          Connected(sock, refused, writes, wrote);
          RestSpared(old(peers), old(writing), peers, writing, sock);
          RestStalled(old(peers), old(writing), peers, writing, sock);
        }
        return;
      }
      if peers[sock].out != [] {
        SomethingTaken(|peers[sock].out|, writes);
      }
      ReadyOpen(sock, canRead, canWrite, got, writes, wrote, sends, shutdown);
    }
  }

  lemma NotOwnPartner(peers: Peers, log: Log, s: Sock)
    requires Consistent(peers, log) && s in peers
    ensures peers[s].other != s && s in log.mate && s in log.sent
  {
    Pair(peers, log, s);
  }

  lemma MutualPartners(peers: Peers, log: Log, s: Sock, q: Sock)
    requires Consistent(peers, log) && s in peers && q in peers
    ensures peers[s].other == q <==> peers[q].other == s
  {
    Pair(peers, log, s);
    Pair(peers, log, q);
  }

  lemma OpenedIs(peers: Peers, c: Sock, u: Sock)
    requires c != u
    ensures var peers' := Opened(peers, c, u);
      && c in peers' && peers'[c] == Peer(u, [], false, false, false)
      && u in peers' && peers'[u] == Peer(c, [], true, false, false)
      && u in peers' - {c} && (peers' - {c})[u] == Peer(c, [], true, false, false)
  {
  }

  lemma ReceiveHeard(log: Log, s: Sock, bytes: Bytes)
    requires s in log.read
    ensures Heard(log, Receive(log, s, bytes), s, bytes) && Receive(log, s, bytes).sent == log.sent
  {
  }

  /** What has been sent on a socket only grows. */
  lemma SentGrows(log: Log, mid: Log, log': Log, s: Sock)
    requires Extends(log, mid) && Extends(mid, log') && s in log.mate && s in mid.sent
    ensures s in log'.sent && mid.sent[s] <= log'.sent[s]
  {
  }

  lemma OpenFacts(peers: Peers, writing: set<Sock>, log: Log, c: Sock, u: Sock)
    requires c !in log.mate && u !in log.mate && c != u && Consistent(peers, log) &&
      Watched(peers, writing, log.eof, {})
    ensures Extends(log, Open(log, c, u))
    ensures var log' := Open(log, c, u); c in log'.mate && log'.mate[c] == u && c !in log'.failed && u !in log'.failed
    ensures c in Opened(peers, c, u)
    ensures Watched(Opened(peers, c, u), writing - {c, u}, Open(log, c, u).eof, {c})
    ensures Watched(Opened(peers, c, u), writing - {c, u} - {c} + {u}, Open(log, c, u).eof, {})
    ensures Prompt(peers, {}) ==> Prompt(Opened(peers, c, u), {})
  {
    hide Watched, Opened;
    assert c !in peers && u !in peers;
    OpenWatched(peers, writing, log.eof, c, u);
    InOpened(peers, c, u);
  }

  lemma InOpened(peers: Peers, c: Sock, u: Sock)
    ensures c in Opened(peers, c, u)
    ensures Prompt(peers, {}) ==> Prompt(Opened(peers, c, u), {})
  {
  }

  lemma OpenWatched(peers: Peers, writing: set<Sock>, eof: set<Sock>, c: Sock, u: Sock)
    requires c !in peers && u !in peers && c != u && Watched(peers, writing, eof, {})
    ensures Watched(Opened(peers, c, u), writing - {c, u}, eof - {c, u}, {c})
    ensures Watched(Opened(peers, c, u), writing - {c, u} - {c} + {u}, eof - {c, u}, {})
  {
  }

  lemma Same(log: Log)
    ensures Extends(log, log)
  {
  }

  lemma FinExtends(log: Log, s: Sock)
    ensures Extends(log, log.(fin := log.fin + {s}))
  {
  }

  lemma FinFailed(peers: Peers, log: Log, s: Sock)
    requires Consistent(peers, log) && s in peers
    ensures s in log.mate && Extends(log, Fail(log, s))
    ensures Consistent(peers[s := peers[s].(finSent := true)] - {s}, Fail(log, s))
  {
    FailClose(peers, log, s);
    assert peers[s := peers[s].(finSent := true)] - {s} == peers - {s};
  }

  lemma SendExtends(start: Log, log: Log, peers: Peers, s: Sock, bytes: Bytes)
    requires Extends(start, log) && s in log.sent
    ensures Extends(start, Send(log, s, bytes))
  {
    assert Extends(log, Send(log, s, bytes));
    ExtendsStep(start, log, Send(log, s, bytes));
  }

  lemma ReceiveExtends(log: Log, s: Sock, bytes: Bytes)
    requires s in log.read && (s in log.eof ==> bytes == [])
    ensures Extends(log, Receive(log, s, bytes))
  {
  }
}
