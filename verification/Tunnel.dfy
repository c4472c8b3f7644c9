/** The whole tunnel: two endpoints and a network that decides freely which
    bytes each side receives. Nothing connects what one side writes with what
    the other side reads except the AEAD. */
module Tunnel {
  import opened Basics
  import opened Wire
  import opened FrameReader
  import opened Transport
  import opened Endpoint
  import RelayLoop
  import Steps

  datatype Tunnel = Tunnel(client: Node, server: Node, log: Log)
  {
    function At(side: Side): Node {
      if side == Client then client else server
    }

    function With(side: Side, n: Node): Tunnel {
      if side == Client then this.(client := n) else this.(server := n)
    }
  }

  /** A step of one endpoint, or an encryption in some other session. */
  datatype Move = Act(side: Side, act: Label) | Foreign(key: Key, nonce: nat, made: Sealed)

  function Next(t: Tunnel, m: Move): Tunnel {
    match m
    case Act(side, act) =>
      var (n, log) := Step(t.At(side), t.log, act);
      t.With(side, n).(log := log)
    case Foreign(key, nonce, made) =>
      if key.session == t.client.session then t else t.(log := t.log[(key, nonce) := made])
  }

  function Begin(session: nat, idle: Side -> nat, now: nat, log: Log): Tunnel {
    Tunnel(Start(Client, session, idle(Client), now), Start(Server, session, idle(Server), now), log)
  }

  function Run(t: Tunnel, moves: seq<Move>): Tunnel {
    if moves == [] then t else Next(Run(t, moves[..|moves| - 1]), moves[|moves| - 1])
  }

  // -------------------------------------------------------------- invariants

  predicate Record(chunk: bytes, frame: bytes, made: Sealed) {
    && made.plain == chunk
    && 1 <= |chunk| <= MAX_PLAINTEXT_RECORD
    && |made.cipher| == |chunk| + TAG_LENGTH
    && frame == Frame(4, made.cipher)
  }

  /** The log under k is exactly what was sealed, nonce by nonce. */
  ghost predicate Logged(k: Key, chunks: seq<bytes>, frames: seq<bytes>, log: Log) {
    && |frames| == |chunks|
    && (forall i: nat :: (k, i) in log <==> i < |chunks|)
    && (forall i: nat :: i < |chunks| ==> Record(chunks[i], frames[i], log[(k, i)]))
  }

  /** What was opened is a prefix of what was sealed, and the bytes accepted so
      far are the very records that were sent. */
  predicate Delivered(chunks: seq<bytes>, frames: seq<bytes>, dec: Decrypting) {
    && |frames| == |chunks|
    && dec.plains <= chunks
    && dec.consumed == Concat(frames[..|dec.plains|]) + dec.partial
  }

  /** As long as the cipher state exists its nonces count the records. */
  predicate CellInv(n: Node) {
    n.cell.state.Some? ==>
      n.cell.state.value ==
      TransportState(Key(n.session, n.side), Key(n.session, Peer(n.side)), |n.enc.chunks|, |n.dec.plains|)
  }

  ghost predicate Sends(n: Node, log: Log) {
    CellInv(n) && Logged(Key(n.session, n.side), n.enc.chunks, n.enc.frames, log)
  }

  predicate Receives(n: Node, peer: Node) {
    Delivered(peer.enc.chunks, peer.enc.frames, n.dec)
  }

  predicate Paired(n: Node, peer: Node) {
    peer.side == Peer(n.side) && peer.session == n.session
  }

  ghost predicate TunnelInv(t: Tunnel) {
    && t.client.side == Client && Paired(t.client, t.server)
    && Sends(t.client, t.log) && Sends(t.server, t.log)
    && Receives(t.client, t.server) && Receives(t.server, t.client)
  }

  lemma LoggedAppend(k: Key, chunks: seq<bytes>, frames: seq<bytes>, log: Log, chunk: bytes, cipher: bytes)
    requires Logged(k, chunks, frames, log)
    requires 1 <= |chunk| <= MAX_PLAINTEXT_RECORD && |cipher| == |chunk| + TAG_LENGTH
    ensures Logged(k, chunks + [chunk], frames + [Frame(4, cipher)], log[(k, |chunks|) := Sealed(chunk, cipher)])
  {
  }

  lemma LoggedOtherKey(k: Key, chunks: seq<bytes>, frames: seq<bytes>, log: Log, key: Key, nonce: nat, made: Sealed)
    requires Logged(k, chunks, frames, log) && key != k
    ensures Logged(k, chunks, frames, log[(key, nonce) := made])
  {
  }

  lemma DeliveredGrow(chunks: seq<bytes>, frames: seq<bytes>, dec: Decrypting, chunk: bytes, frame: bytes)
    requires Delivered(chunks, frames, dec)
    ensures Delivered(chunks + [chunk], frames + [frame], dec)
  {
    assert (frames + [frame])[..|dec.plains|] == frames[..|dec.plains|];
  }

  /** One read of copy_encrypt seals at most one record, at the next nonce of
      its own key, and touches no other. */
  lemma {:induction false} EncReadKeeps(n: Node, peer: Node, log: Log, data: bytes, cipher: bytes)
    requires Paired(n, peer) && Sends(n, log) && Sends(peer, log) && Receives(peer, n)
    ensures var (m, log') := EncReadStep(n, log, data, cipher);
            Sends(m, log') && Sends(peer, log') && Receives(peer, m) && m.dec == n.dec
  {
    var (m, log') := EncReadStep(n, log, data, cipher);
    if m.enc.frames != n.enc.frames {
      var k := Key(n.session, n.side);
      LoggedAppend(k, n.enc.chunks, n.enc.frames, log, data, cipher);
      LoggedOtherKey(Key(peer.session, peer.side), peer.enc.chunks, peer.enc.frames, log, k, |n.enc.chunks|,
                     Sealed(data, cipher));
      DeliveredGrow(n.enc.chunks, n.enc.frames, peer.dec, data, Frame(4, cipher));
    } else {
      EncReadFails(n, log, data, cipher);
    }
  }

  lemma EncReadFails(n: Node, log: Log, data: bytes, cipher: bytes)
    requires EncReadStep(n, log, data, cipher).0.enc.frames == n.enc.frames
    ensures var (m, log') := EncReadStep(n, log, data, cipher);
            log' == log && m.enc.chunks == n.enc.chunks && (m.cell == n.cell || m.cell.state.None?)
  {
    if Seal(n.cell, log, data, cipher).result.Ok? {
      assert |n.enc.frames + [Seal(n.cell, log, data, cipher).result.value]| > |n.enc.frames|;
    }
  }

  /** A frame that opens at nonce i is the peer's record i, byte for byte. */
  lemma OpenedIsTheRecord(k: Key, chunks: seq<bytes>, frames: seq<bytes>, log: Log, i: nat, frame: bytes)
    requires Logged(k, chunks, frames, log)
    requires DecodeRecordFrame(frame).Ok? && IdealOpen(log, k, i, DecodeRecordFrame(frame).value).Some?
    ensures i < |chunks| && frame == frames[i] &&
            IdealOpen(log, k, i, DecodeRecordFrame(frame).value) == Some(chunks[i])
  {
    var cipher := DecodeRecordFrame(frame).value;
    assert Record(chunks[i], frames[i], log[(k, i)]);
    HeaderWidths();
    DecodeExact(frame, 4, MAX_CIPHERTEXT_RECORD, false, cipher);
  }

  lemma DeliveredNext(chunks: seq<bytes>, frames: seq<bytes>, dec: Decrypting, after: Decrypting)
    requires Delivered(chunks, frames, dec) && |dec.plains| < |chunks|
    requires after.plains == dec.plains + [chunks[|dec.plains|]] && after.partial == []
    requires after.consumed == Concat(frames[..|dec.plains|]) + frames[|dec.plains|]
    ensures Delivered(chunks, frames, after)
  {
    var i := |dec.plains|;
    ConcatSnoc(frames[..i], frames[i]);
    assert frames[..i + 1] == frames[..i] + [frames[i]];
  }

  /** A read that opens a record takes the peer's next one from the log. */
  lemma DecReadOpens(n: Node, log: Log, data: bytes)
    requires DecReadStep(n, log, data).dec.plains != n.dec.plains
    ensures var m, got := DecReadStep(n, log, data), n.dec.partial + data;
            && n.cell.state.Some? && DecodeRecordFrame(got).Ok?
            && var t, cipher := n.cell.state.value, DecodeRecordFrame(got).value;
            && IdealOpen(log, t.recvKey, t.recvNonce, cipher).Some?
            && m.dec.plains == n.dec.plains + [IdealOpen(log, t.recvKey, t.recvNonce, cipher).value]
            && m.dec.partial == [] && m.dec.consumed == n.dec.consumed + data
            && m.cell.state == Some(t.(recvNonce := t.recvNonce + 1))
            && m.enc == n.enc && m.side == n.side && m.session == n.session
  {
  }

  /** Whatever bytes arrive, a record that opens is the peer's next record. */
  lemma {:induction false} DecReadKeeps(n: Node, peer: Node, log: Log, data: bytes)
    requires Paired(n, peer) && Sends(n, log) && Sends(peer, log) && Receives(n, peer)
    ensures var m := DecReadStep(n, log, data);
            Sends(m, log) && Receives(m, peer) && m.enc == n.enc
  {
    hide Frame, ToBe, FromBe, DecodeFrame, IdealOpen;
    var m, got := DecReadStep(n, log, data), n.dec.partial + data;
    if m.dec.plains != n.dec.plains {
      DecReadOpens(n, log, data);
      hide DecReadStep;
      OpenedIsTheRecord(Key(peer.session, peer.side), peer.enc.chunks, peer.enc.frames, log, |n.dec.plains|, got);
      assert n.dec.consumed + data == Concat(peer.enc.frames[..|n.dec.plains|]) + got;
      DeliveredNext(peer.enc.chunks, peer.enc.frames, n.dec, m.dec);
    } else {
      DecReadFails(n, log, data);
      hide DecReadStep;
      assert m.dec.consumed == Concat(peer.enc.frames[..|n.dec.plains|]) + m.dec.partial;
    }
  }

  lemma DecReadFails(n: Node, log: Log, data: bytes)
    requires DecReadStep(n, log, data).dec.plains == n.dec.plains
    ensures var m := DecReadStep(n, log, data);
            && m.enc == n.enc && m.side == n.side && m.session == n.session
            && (m.cell == n.cell || m.cell.state.None?)
            && (m.dec == n.dec || (m.dec.consumed == n.dec.consumed + data && m.dec.partial == n.dec.partial + data))
  {
    var o := Open(n.cell, log, n.dec.partial + data);
    if o.result.Ok? {
      assert |n.dec.plains + [o.result.value]| > |n.dec.plains|;
    }
  }

  lemma OtherStepsKeep(n: Node, log: Log, l: Label)
    requires !l.EncRead? && !l.DecRead?
    ensures var (m, log') := Step(n, log, l);
            && log' == log && m.cell.state == n.cell.state
            && m.enc.chunks == n.enc.chunks && m.enc.frames == n.enc.frames
            && m.dec.plains == n.dec.plains && m.dec.consumed == n.dec.consumed && m.dec.partial == n.dec.partial
  {
  }

  lemma {:induction false} StepKeeps(n: Node, peer: Node, log: Log, l: Label)
    requires Paired(n, peer) && Sends(n, log) && Sends(peer, log) && Receives(n, peer) && Receives(peer, n)
    ensures var (m, log') := Step(n, log, l);
            Paired(m, peer) && Sends(m, log') && Sends(peer, log') && Receives(m, peer) && Receives(peer, m)
  {
    RelayLoop.SideStays(n, log, l);
    match l
    case EncRead(data, cipher) => EncReadKeeps(n, peer, log, data, cipher);
    case DecRead(data) => DecReadKeeps(n, peer, log, data);
    case _ => OtherStepsKeep(n, log, l);
  }

  lemma {:induction false} NextKeepsInv(t: Tunnel, m: Move)
    requires TunnelInv(t)
    ensures TunnelInv(Next(t, m))
  {
    match m
    case Act(side, act) =>
      StepKeeps(t.At(side), t.At(Peer(side)), t.log, act);
    case Foreign(key, nonce, made) =>
      if key.session != t.client.session {
        LoggedOtherKey(Key(t.client.session, Client), t.client.enc.chunks, t.client.enc.frames, t.log, key, nonce,
                       made);
        LoggedOtherKey(Key(t.server.session, Server), t.server.enc.chunks, t.server.enc.frames, t.log, key, nonce,
                       made);
      }
  }

  /** A move is a step of one endpoint and of nothing else; or an encryption in
      another session, where anything may be encrypted at any time. */
  lemma MoveEffect(t: Tunnel, key: Key, nonce: nat, made: Sealed, side: Side, act: Label)
    ensures var t', (n, log) := Next(t, Act(side, act)), Step(t.At(side), t.log, act);
            t'.At(side) == n && t'.At(Peer(side)) == t.At(Peer(side)) && t'.log == log
    ensures Next(t, Foreign(key, nonce, made)) ==
            t.(log := if key.session == t.client.session then t.log else t.log[(key, nonce) := made])
  {
  }

  /** Encryptions made before the session began are under other keys. */
  ghost predicate Fresh(session: nat, log: Log) {
    forall k, i: nat :: (k, i) in log ==> k.session != session
  }

  lemma {:induction false} RunKeepsInv(session: nat, idle: Side -> nat, now: nat, log: Log, moves: seq<Move>)
    requires Fresh(session, log)
    ensures TunnelInv(Run(Begin(session, idle, now, log), moves))
  {
    if moves != [] {
      var before := moves[..|moves| - 1];
      RunKeepsInv(session, idle, now, log, before);
      NextKeepsInv(Run(Begin(session, idle, now, log), before), moves[|moves| - 1]);
    }
  }

  /** Each endpoint of the tunnel is an endpoint in the sense of RelayLoop. */
  lemma {:induction false} RunKeepsEndpoints(session: nat, idle: Side -> nat, now: nat, log: Log, moves: seq<Move>)
    ensures var t := Run(Begin(session, idle, now, log), moves);
            RelayLoop.Inv(t.client) && RelayLoop.Inv(t.server)
  {
    if moves != [] {
      var before, m := moves[..|moves| - 1], moves[|moves| - 1];
      RunKeepsEndpoints(session, idle, now, log, before);
      var t := Run(Begin(session, idle, now, log), before);
      if m.Act? {
        RelayLoop.StepKeepsInv(t.At(m.side), t.log, m.act);
      }
    }
  }

  // ------------------------------------------------------------ main results

  /** In every run and in both directions: what the receiver hands to its local
      side is a prefix of what the sender read from its own, record by record;
      and the network bytes it accepted as records are a prefix of the bytes
      the sender produced. Dropped, replayed, reordered, altered, injected,
      reflected or foreign bytes, re-chunking, faults, timeouts and aborts are
      all among the moves. */
  lemma OutputIsPrefixOfInput(session: nat, idle: Side -> nat, now: nat, log: Log, moves: seq<Move>, side: Side)
    requires Fresh(session, log)
    ensures var t := Run(Begin(session, idle, now, log), moves);
            var enc, dec := t.At(side).enc, t.At(Peer(side)).dec;
            && dec.output <= enc.input
            && dec.plains <= enc.chunks
            && exists accepted :: dec.consumed == accepted + dec.partial && accepted <= enc.written + enc.rest
  {
    var t := Run(Begin(session, idle, now, log), moves);
    RunKeepsInv(session, idle, now, log, moves);
    RunKeepsEndpoints(session, idle, now, log, moves);
    PrefixFromInvariants(t.At(side).enc, t.At(Peer(side)).dec);
  }

  lemma PrefixFromInvariants(enc: Encrypting, dec: Decrypting)
    requires RelayLoop.EncInv(enc) && RelayLoop.DecInv(dec) && Delivered(enc.chunks, enc.frames, dec)
    ensures dec.output <= enc.input && dec.plains <= enc.chunks
    ensures exists accepted :: dec.consumed == accepted + dec.partial && accepted <= enc.written + enc.rest
  {
    var accepted := Concat(enc.frames[..|dec.plains|]);
    ConcatPrefix(dec.plains, enc.chunks);
    ConcatPrefix(enc.frames[..|dec.plains|], enc.frames);
    assert dec.output <= Concat(dec.plains);
    assert dec.consumed == accepted + dec.partial && accepted <= enc.written + enc.rest;
  }

  // --------------------------------------------------- what a receiver accepts

  /** Exactly which records a working receiver accepts: the whole frame in its
      buffer is the peer's next record, byte for byte, and then its plaintext is
      put in line; or it is not, and then the task ends with a decryption error
      and the cipher state is gone. */
  lemma AcceptedIff(t: Tunnel, side: Side, data: bytes)
    requires TunnelInv(t)
    requires var n := t.At(side);
             && n.dec.pc == Reading && 1 <= |data| <= Want(n.dec.partial) && Ready(n.cell, false)
             && DecodeRecordFrame(n.dec.partial + data).Ok? && Payload(DecodeRecordFrame(n.dec.partial + data).value)
    ensures var n, peer, got := t.At(side), t.At(Peer(side)), t.At(side).dec.partial + data;
            var m, i := Next(t, Act(side, DecRead(data))).At(side), |n.dec.plains|;
            if i < |peer.enc.frames| && got == peer.enc.frames[i] then
              && m.dec.plains == n.dec.plains + [peer.enc.chunks[i]]
              && m.dec.rest == peer.enc.chunks[i] && m.dec.pc == Writing
            else
              && m.dec.pc == Finished(Failed(CipherError(Noise(Decrypt))))
              && m.cell == CLOSED && m.dec.plains == n.dec.plains
  {
    var n, peer, got := t.At(side), t.At(Peer(side)), t.At(side).dec.partial + data;
    var i, k, cipher := |n.dec.plains|, Key(peer.session, peer.side), DecodeRecordFrame(got).value;
    HeaderWidths();
    DecodeExact(got, 4, MAX_CIPHERTEXT_RECORD, false, cipher);
    WholeFrame(cipher);
    if i < |peer.enc.frames| {
      assert Record(peer.enc.chunks[i], peer.enc.frames[i], t.log[(k, i)]);
      if got == peer.enc.frames[i] {
        DecodeExact(got, 4, MAX_CIPHERTEXT_RECORD, false, t.log[(k, i)].cipher);
      }
    }
    if IdealOpen(t.log, k, i, cipher).Some? {
      OpenedIsTheRecord(k, peer.enc.chunks, peer.enc.frames, t.log, i, got);
    }
    Steps.ReadIsTaken(n, t.log, data);
    hide Frame, FromBe, DecodeFrame, Delivered, Step;
  }

  lemma WholeFrame(cipher: bytes)
    requires |cipher| <= MAX_CIPHERTEXT_RECORD
    ensures FromBe(Frame(4, cipher)[..4]) == |cipher|
  {
    HeaderWidths();
    FromToBe(|cipher|, 4);
    assert Frame(4, cipher)[..4] == ToBe(|cipher|, 4);
  }

  // -------------------------------------------------- what a clean end is worth

  /** Fewer records carry fewer bytes: no record is empty. */
  lemma FewerRecordsFewerBytes(k: Key, chunks: seq<bytes>, frames: seq<bytes>, log: Log, i: nat)
    requires Logged(k, chunks, frames, log) && i < |chunks|
    ensures |Concat(chunks[..i])| < |Concat(chunks)| && |Concat(frames[..i])| < |Concat(frames)|
  {
    ConcatSplit(chunks, i);
    ConcatSplit(frames, i);
    assert Record(chunks[i], frames[i], log[(k, i)]);
  }

  lemma WholeIff(enc: Encrypting, dec: Decrypting, k: Key, log: Log)
    requires Logged(k, enc.chunks, enc.frames, log) && Delivered(enc.chunks, enc.frames, dec)
    requires RelayLoop.EncInv(enc) && RelayLoop.DecInv(dec) && dec.rest == []
    ensures dec.output == enc.input <==> |dec.plains| == |enc.chunks| && Concat(enc.chunks) == enc.input
  {
    assert dec.output == Concat(dec.plains);
    ConcatPrefix(dec.plains, enc.chunks);
    if |dec.plains| < |enc.chunks| {
      assert dec.plains == enc.chunks[..|dec.plains|];
      FewerRecordsFewerBytes(k, enc.chunks, enc.frames, log, |dec.plains|);
    } else {
      assert dec.plains == enc.chunks;
    }
  }

  /** On a hostile network, exactly when a receiver's clean end is a complete
      transfer: every sealed record was opened, and the sender could seal all
      that it read. */
  lemma {:induction false} CleanEndIsCompleteIff(session: nat, idle: Side -> nat, now: nat,
                                                 log: Log, moves: seq<Move>, side: Side)
    requires Fresh(session, log)
    ensures var t := Run(Begin(session, idle, now, log), moves);
            var enc, dec := t.At(side).enc, t.At(Peer(side)).dec;
            dec.pc == Finished(Completed) ==>
              (dec.output == enc.input <==> |dec.plains| == |enc.chunks| && Concat(enc.chunks) == enc.input)
  {
    var t := Run(Begin(session, idle, now, log), moves);
    RunKeepsInv(session, idle, now, log, moves);
    RunKeepsEndpoints(session, idle, now, log, moves);
    if t.At(Peer(side)).dec.pc == Finished(Completed) {
      WholeIff(t.At(side).enc, t.At(Peer(side)).dec, Key(t.At(side).session, t.At(side).side), t.log);
    }
  }

  lemma RunSnoc(t: Tunnel, moves: seq<Move>, m: Move)
    ensures Run(t, moves + [m]) == Next(Run(t, moves), m)
  {
    assert (moves + [m])[..|moves|] == moves;
  }

  lemma EndOfStream(n: Node, log: Log)
    requires n.side == Client && n.relay.exit.Running? && n.dec.pc == Reading && n.dec.partial == []
    ensures var m := Step(Step(Step(n, log, DecEof).0, log, DecShutdown).0, log, Poll(DecryptTask)).0;
            m.relay.exit.ReturnedOk? && m.dec == n.dec.(pc := Finished(Completed)) && m.enc == n.enc
  {
    assert Step(n, log, DecEof).0 == n.(dec := n.dec.(pc := Closing));
    assert Step(n.(dec := n.dec.(pc := Closing)), log, DecShutdown).0 == n.(dec := n.dec.(pc := Finished(Completed)));
  }

  /** The client's own moves leave the server and, unless it encrypts, the log. */
  lemma ClientMoves(t: Tunnel, act: Label)
    requires !act.EncRead?
    ensures Next(t, Act(Client, act)) == t.(client := Step(t.client, t.log, act).0)
  {
  }

  /** Whenever the client's reader stands between two records, the network can
      end the stream there, and the client's relay returns Ok with what it has. */
  lemma {:induction false} CutAtAnyRecord(begin: Tunnel, moves: seq<Move>) returns (all: seq<Move>)
    requires var n := Run(begin, moves).client;
             n.side == Client && n.relay.exit.Running? && n.dec.pc == Reading && n.dec.partial == []
    ensures var before, after := Run(begin, moves), Run(begin, all);
            && after.client.relay.exit.ReturnedOk? && after.client.dec == before.client.dec.(pc := Finished(Completed))
            && after.server == before.server
  {
    var eof, shut, poll := Act(Client, DecEof), Act(Client, DecShutdown), Act(Client, Poll(DecryptTask));
    all := moves + [eof] + [shut] + [poll];
    RunSnoc(begin, moves, eof);
    RunSnoc(begin, moves + [eof], shut);
    RunSnoc(begin, moves + [eof] + [shut], poll);
    hide Run, Step, Next;
    var t := Run(begin, moves);
    EndOfStream(t.client, t.log);
    ClientMoves(t, DecEof);
    ClientMoves(Next(t, eof), DecShutdown);
    ClientMoves(Next(Next(t, eof), shut), Poll(DecryptTask));
  }

  /** Silent truncation: the server has read and sealed a byte, the network
      delivers nothing but an end of stream, and the client's relay returns Ok. */
  lemma {:induction false} CleanEndMayTruncate(idle: Side -> nat) returns (moves: seq<Move>)
    ensures var t := Run(Begin(0, idle, 0, map[]), moves);
            && t.client.relay.exit.ReturnedOk? && t.client.dec.pc == Finished(Completed)
            && t.server.enc.input == [7] && t.client.dec.output == []
  {
    var begin := Begin(0, idle, 0, map[]);
    var read := Act(Server, EncRead([7], seq(17, _ => 0)));
    assert Run(begin, []) == begin;
    RunSnoc(begin, [], read);
    hide Run;
    var t := Next(begin, read);
    assert t.server.enc.input == [7] && t.client == begin.client;
    moves := CutAtAnyRecord(begin, [] + [read]);
  }
}
