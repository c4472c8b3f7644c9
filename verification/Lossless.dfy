/** The tunnel over a network that loses nothing: what one side writes arrives
    at the other in order, in pieces of any size, and the end of the stream
    arrives last. Every step here is a step (or no step) of module Tunnel. */
module Lossless {
  import opened Basics
  import opened Wire
  import opened FrameReader
  import opened Transport
  import opened Endpoint
  import opened Tunnel
  import RelayLoop
  import Steps

  /** One direction's pipe: bytes in flight, and whether the writer closed. */
  datatype Pipe = Pipe(flight: bytes, closed: bool)

  datatype Net = Net(t: Tunnel, fromClient: Pipe, fromServer: Pipe)
  {
    function From(side: Side): Pipe {
      if side == Client then fromClient else fromServer
    }

    function WithFrom(side: Side, p: Pipe): Net {
      if side == Client then this.(fromClient := p) else this.(fromServer := p)
    }
  }

  datatype Event = Do(move: Move) | DropSocket(side: Side)

  function NetNext(w: Net, e: Event): Net {
    match e
    case DropSocket(side) =>
      if RelayLoop.BothFinished(w.t.At(side)) then w.WithFrom(side, w.From(side).(closed := true)) else w
    case Do(Foreign(_, _, _)) =>
      w.(t := Next(w.t, e.move))
    case Do(Act(side, act)) =>
      var n, t', out, inn := w.t.At(side), Next(w.t, e.move), w.From(side), w.From(Peer(side));
      match act
      case EncWrite(count) =>
        if n.enc.pc == Writing && 1 <= count <= |n.enc.rest| then
          w.(t := t').WithFrom(side, out.(flight := out.flight + n.enc.rest[..count]))
        else w
      case EncShutdown =>
        if n.enc.pc == Closing then w.(t := t').WithFrom(side, out.(closed := true)) else w
      case DecRead(data) =>
        if n.dec.pc == Reading && 1 <= |data| <= Want(n.dec.partial) && data <= inn.flight then
          w.(t := t').WithFrom(Peer(side), inn.(flight := inn.flight[|data|..]))
        else w
      case DecEof =>
        if inn.flight == [] && inn.closed then w.(t := t') else w
      case _ => w.(t := t')
  }

  function NetRun(w: Net, events: seq<Event>): Net {
    if events == [] then w else NetNext(NetRun(w, events[..|events| - 1]), events[|events| - 1])
  }

  function NetBegin(session: nat, idle: Side -> nat, now: nat, log: Log): Net {
    Net(Begin(session, idle, now, log), Pipe([], false), Pipe([], false))
  }

  // -------------------------------------------------------------- invariants

  /** The reader stands inside a record it can still complete. */
  predicate MidRecord(partial: bytes) {
    |partial| < 4 || (1 <= FromBe(partial[..4]) <= MAX_CIPHERTEXT_RECORD && |partial| < 4 + FromBe(partial[..4]))
  }

  /** The only failures a faithful network can provoke are not its own. */
  predicate NotTheNetwork(reason: Reason) {
    match reason
    case SocketError => true
    case FrameError(e) => e.UnexpectedEof?
    case CipherError(e) => e.ClosedSession? || e.PoisonedCipherState? || e == Noise(Exhausted)
  }

  predicate PipeInv(enc: Encrypting, dec: Decrypting, p: Pipe) {
    && dec.consumed + p.flight == enc.written
    && (p.closed ==> enc.pc.Finished?)
    && (enc.pc == Finished(Completed) ==> p.closed)
    && (dec.pc.Closing? || dec.pc == Finished(Completed) ==> p.closed && p.flight == [])
    && (dec.pc.Reading? || dec.pc.Writing? || dec.pc.Flushing? ==> MidRecord(dec.partial))
    && (dec.pc.Finished? && dec.pc.result.Failed? ==> NotTheNetwork(dec.pc.result.reason))
    && (BadFrame(dec) ==> enc.pc.Finished? && enc.pc != Finished(Completed))
  }

  predicate BadFrame(dec: Decrypting) {
    dec.pc.Finished? && dec.pc.result.Failed? && dec.pc.result.reason.FrameError?
  }

  lemma CancelLeft(a: bytes, x: bytes, y: bytes)
    requires a + x == a + y
    ensures x == y
  {
    assert (a + x)[|a|..] == x && (a + y)[|a|..] == y;
  }

  lemma Aligned(a: bytes, restA: bytes, b: bytes, restB: bytes)
    requires a + restA == b + restB
    ensures a <= b || b <= a
  {
    if |a| <= |b| {
      assert a == (a + restA)[..|a|] == (b + restB)[..|a|] == b[..|a|];
    } else {
      assert b == (b + restB)[..|b|] == (a + restA)[..|b|] == a[..|b|];
    }
  }

  /** In flight the receiver finds the record the sender numbered next. */
  lemma NextBytes(enc: Encrypting, dec: Decrypting, p: Pipe, data: bytes)
    requires Delivered(enc.chunks, enc.frames, dec) && RelayLoop.EncInv(enc)
    requires dec.consumed + p.flight == enc.written
    requires data != [] && data <= p.flight
    ensures var i, got := |dec.plains|, dec.partial + data;
            i < |enc.frames| && (got <= enc.frames[i] || enc.frames[i] <= got)
  {
    var i, got := |dec.plains|, dec.partial + data;
    var before, more := Concat(enc.frames[..i]), p.flight[|data|..] + enc.rest;
    assert p.flight == data + p.flight[|data|..];
    assert Concat(enc.frames) == before + (got + more) by {
      assert before + dec.partial + p.flight + enc.rest == before + (got + more);
    }
    var tail := WhatFollows(enc.frames, i, got + more);
    Aligned(enc.frames[i], tail, got, more);
  }

  /** A prefix of a genuine record has a legal length, and if it is as long as
      it says it is that record. */
  lemma GenuinePrefix(cipher: bytes, got: bytes)
    requires Payload(cipher) && |got| >= 4 && (got <= Frame(4, cipher) || Frame(4, cipher) <= got)
    ensures FromBe(got[..4]) == |cipher|
    ensures |got| == 4 + |cipher| ==> got == Frame(4, cipher) && DecodeRecordFrame(got) == Ok(cipher)
  {
    HeaderWidths();
    FromToBe(|cipher|, 4);
    assert got[..4] == Frame(4, cipher)[..4] == ToBe(|cipher|, 4);
    if |got| == 4 + |cipher| {
      DecodeExact(got, 4, MAX_CIPHERTEXT_RECORD, false, cipher);
    }
  }

  /** What one read does when the bytes are a genuine prefix. */
  lemma GenuineRead(n: Node, log: Log, data: bytes, key: Key, made: Sealed)
    requires n.dec.pc == Reading && 1 <= |data| <= Want(n.dec.partial) && MidRecord(n.dec.partial)
    requires Payload(made.cipher) && |made.plain| <= MAX_PLAINTEXT_RECORD
    requires var got := n.dec.partial + data; got <= Frame(4, made.cipher) || Frame(4, made.cipher) <= got
    requires n.cell.state.Some? ==>
               n.cell.state.value.recvKey == key && (key, n.cell.state.value.recvNonce) in log &&
               log[(key, n.cell.state.value.recvNonce)] == made
    ensures var m := DecReadStep(n, log, data);
            && m.dec.consumed == n.dec.consumed + data
            && (m.dec.pc.Reading? || m.dec.pc.Writing? || m.dec.pc.Flushing? ||
                (m.dec.pc.Finished? && m.dec.pc.result.Failed?))
            && (m.dec.pc.Finished? ==> NotTheNetwork(m.dec.pc.result.reason)) && !BadFrame(m.dec)
            && (m.dec.pc.Reading? || m.dec.pc.Writing? || m.dec.pc.Flushing? ==> MidRecord(m.dec.partial))
  {
    var got := n.dec.partial + data;
    if |got| >= 4 {
      GenuinePrefix(made.cipher, got);
      if |n.dec.partial| >= 4 {
        assert got[..4] == n.dec.partial[..4];
      }
      hide Frame, ToBe, FromBe, DecodeFrame;
    }
  }

  /** A read from a faithful network never runs into a framing or AEAD error. */
  lemma ReadSucceeds(n: Node, peer: Node, log: Log, p: Pipe, data: bytes)
    requires Paired(n, peer) && CellInv(n) && Sends(peer, log) && Receives(n, peer)
    requires RelayLoop.EncInv(peer.enc) && PipeInv(peer.enc, n.dec, p)
    requires n.dec.pc == Reading && 1 <= |data| <= Want(n.dec.partial) && data <= p.flight
    ensures var m := DecReadStep(n, log, data);
            PipeInv(peer.enc, m.dec, p.(flight := p.flight[|data|..]))
  {
    var k, i := Key(peer.session, peer.side), |n.dec.plains|;
    NextBytes(peer.enc, n.dec, p, data);
    assert Record(peer.enc.chunks[i], peer.enc.frames[i], log[(k, i)]);
    GenuineRead(n, log, data, k, log[(k, i)]);
    hide DecReadStep, Frame;
    assert p.flight == data + p.flight[|data|..];
  }

  lemma LocalStep(n: Node, log: Log, l: Label)
    requires !l.EncRead? && !l.DecRead? && !l.EncWrite? && !l.DecEof? && !l.EncShutdown?
    ensures var m := Step(n, log, l).0;
            && m.enc.written == n.enc.written && m.dec.consumed == n.dec.consumed && m.dec.partial == n.dec.partial
            && (n.enc.pc.Finished? ==> m.enc.pc == n.enc.pc)
            && (m.enc.pc == Finished(Completed) ==> n.enc.pc == Finished(Completed))
            && (m.dec.pc == n.dec.pc
                || (m.dec.pc.Finished? && (m.dec.pc.result.Failed? ==> m.dec.pc.result.reason == SocketError)
                    && (m.dec.pc.result.Completed? ==> n.dec.pc.Closing?))
                || (n.dec.pc.Writing? && m.dec.pc.Flushing?) || (n.dec.pc.Flushing? && m.dec.pc.Reading?))
  {
  }

  lemma EncReadLocal(n: Node, log: Log, act: Label)
    requires act.EncRead?
    ensures var m := Step(n, log, act).0;
            m.enc.written == n.enc.written && m.dec == n.dec && (n.enc.pc.Finished? ==> m.enc == n.enc) &&
            (m.enc.pc == Finished(Completed) ==> n.enc.pc == Finished(Completed))
  {
  }

  lemma DecReadEnc(n: Node, log: Log, data: bytes)
    ensures DecReadStep(n, log, data).enc == n.enc
  {
  }

  /** The pipe an endpoint writes and the pipe it reads. */
  predicate PipesInv(w: Net, side: Side) {
    PipeInv(w.t.At(side).enc, w.t.At(Peer(side)).dec, w.From(side)) &&
    PipeInv(w.t.At(Peer(side)).enc, w.t.At(side).dec, w.From(Peer(side)))
  }

  lemma WriteKeepsPipes(w: Net, side: Side, count: nat)
    requires PipesInv(w, side)
    ensures PipesInv(NetNext(w, Do(Act(side, EncWrite(count)))), side)
  {
    var n, peer, flight := w.t.At(side), w.t.At(Peer(side)), w.From(side).flight;
    if n.enc.pc == Writing && 1 <= count <= |n.enc.rest| {
      var some := n.enc.rest[..count];
      assert peer.dec.consumed + (flight + some) == n.enc.written + some;
    }
  }

  lemma ReadKeepsPipes(w: Net, side: Side, data: bytes)
    requires TunnelInv(w.t) && RelayLoop.EncInv(w.t.At(Peer(side)).enc) && PipesInv(w, side)
    ensures PipesInv(NetNext(w, Do(Act(side, DecRead(data)))), side)
  {
    var n, peer, inn := w.t.At(side), w.t.At(Peer(side)), w.From(Peer(side));
    if n.dec.pc == Reading && 1 <= |data| <= Want(n.dec.partial) && data <= inn.flight {
      ReadSucceeds(n, peer, w.t.log, inn, data);
      DecReadEnc(n, w.t.log, data);
    }
  }

  lemma ShutdownKeepsPipes(w: Net, side: Side)
    requires PipesInv(w, side)
    ensures PipesInv(NetNext(w, Do(Act(side, EncShutdown))), side)
  {
  }

  /** At the end of the stream a reader inside a record knows that its peer did
      not complete: a completed sender leaves it between records. */
  lemma EofKeepsPipes(w: Net, side: Side)
    requires TunnelInv(w.t) && RelayLoop.EncInv(w.t.At(Peer(side)).enc) && PipesInv(w, side)
    ensures PipesInv(NetNext(w, Do(Act(side, DecEof))), side)
  {
    var n, peer, inn := w.t.At(side), w.t.At(Peer(side)), w.From(Peer(side));
    if n.dec.pc == Reading && inn.flight == [] && inn.closed && peer.enc.pc == Finished(Completed) {
      EmptyPipeEndsBetweenRecords(Key(peer.session, peer.side), peer.enc, n.dec, inn, w.t.log);
    }
    hide Logged, Delivered, MidRecord;
  }

  lemma LocalKeepsPipes(w: Net, side: Side, act: Label)
    requires PipesInv(w, side)
    requires !act.DecRead? && !act.EncWrite? && !act.DecEof? && !act.EncShutdown?
    ensures PipesInv(NetNext(w, Do(Act(side, act))), side)
  {
    hide Step, MidRecord;
    if act.EncRead? {
      EncReadLocal(w.t.At(side), w.t.log, act);
    } else {
      LocalStep(w.t.At(side), w.t.log, act);
    }
  }

  lemma {:induction false} ActKeepsPipes(w: Net, side: Side, act: Label)
    requires TunnelInv(w.t) && RelayLoop.EncInv(w.t.At(Peer(side)).enc) && PipesInv(w, side)
    ensures PipesInv(NetNext(w, Do(Act(side, act))), side)
  {
    match act {
      case EncWrite(count) => WriteKeepsPipes(w, side, count);
      case DecRead(data) => ReadKeepsPipes(w, side, data);
      case DecEof => EofKeepsPipes(w, side);
      case EncShutdown => ShutdownKeepsPipes(w, side);
      case _ => LocalKeepsPipes(w, side, act);
    }
  }

  /** Every lossless step is a step of the adversarial network, or none. */
  lemma StepsAreTunnelSteps(w: Net, e: Event)
    ensures NetNext(w, e).t == w.t || (e.Do? && NetNext(w, e).t == Next(w.t, e.move))
  {
  }

  // -------------------------------------- why a cipher state can be gone at all

  /** One of the two nonces of this endpoint has run out. */
  predicate OutOfNonces(n: Node) {
    |n.enc.chunks| >= LAST_NONCE || |n.dec.plains| >= LAST_NONCE
  }

  /** Without an adversary a cipher state is lost only by running out of nonces,
      and poisoned only by a task that panicked. */
  predicate CellHistory(n: Node) {
    && (n.cell.state.None? ==> OutOfNonces(n))
    && (n.cell.poisoned ==> n.enc.pc == Finished(Panicked) || n.dec.pc == Finished(Panicked))
    && (n.dec.pc.Finished? && n.dec.pc.result.Failed? && n.dec.pc.result.reason.CipherError? ==>
          if n.dec.pc.result.reason.tunnel.PoisonedCipherState? then n.cell.poisoned else OutOfNonces(n))
  }

  lemma EncReadKeepsHistory(n: Node, log: Log, data: bytes, cipher: bytes)
    requires CellInv(n) && CellHistory(n)
    ensures CellHistory(EncReadStep(n, log, data, cipher).0)
  {
  }

  lemma DecReadKeepsHistory(n: Node, log: Log, data: bytes)
    requires CellInv(n) && CellHistory(n)
    requires var pc := DecReadStep(n, log, data).dec.pc; pc.Finished? && pc.result.Failed? ==>
               NotTheNetwork(pc.result.reason)
    ensures CellHistory(DecReadStep(n, log, data))
  {
  }

  lemma OthersKeepHistory(n: Node, log: Log, l: Label)
    requires CellHistory(n) && !l.EncRead? && !l.DecRead?
    ensures CellHistory(Step(n, log, l).0)
  {
  }

  lemma {:induction false} ActKeepsHistory(w: Net, side: Side, act: Label)
    requires NetInv(w) && PipesInv(NetNext(w, Do(Act(side, act))), Client)
    ensures CellHistory(NetNext(w, Do(Act(side, act))).t.At(side))
  {
    var n, w' := w.t.At(side), NetNext(w, Do(Act(side, act)));
    hide CellHistory, EncReadStep, DecReadStep, EncStep, DecStep, FaultStep, PollStep, RelayStep, NotTheNetwork,
        MidRecord, Logged;
    match act {
      case EncRead(data, cipher) =>
        EncReadKeepsHistory(n, w.t.log, data, cipher);
      case DecRead(data) =>
        if w' != w {
          assert PipesInv(w', side);
          DecReadKeepsHistory(n, w.t.log, data);
        }
      case _ =>
        OthersKeepHistory(n, w.t.log, act);
    }
  }

  ghost predicate NetInv(w: Net) {
    && TunnelInv(w.t) && RelayLoop.Inv(w.t.client) && RelayLoop.Inv(w.t.server)
    && PipesInv(w, Client) && CellHistory(w.t.client) && CellHistory(w.t.server)
  }

  lemma {:induction false} NodesKeepInv(w: Net, e: Event)
    requires RelayLoop.Inv(w.t.client) && RelayLoop.Inv(w.t.server)
    ensures RelayLoop.Inv(NetNext(w, e).t.client) && RelayLoop.Inv(NetNext(w, e).t.server)
  {
    StepsAreTunnelSteps(w, e);
    if e.Do? && e.move.Act? {
      RelayLoop.StepKeepsInv(w.t.At(e.move.side), w.t.log, e.move.act);
    }
  }

  lemma {:induction false} PipesKeepInv(w: Net, e: Event)
    requires NetInv(w)
    ensures PipesInv(NetNext(w, e), Client)
  {
    if e.Do? && e.move.Act? {
      ActKeepsPipes(w, e.move.side, e.move.act);
    }
  }

  lemma {:induction false} HistoriesKeep(w: Net, e: Event)
    requires NetInv(w) && PipesInv(NetNext(w, e), Client)
    ensures CellHistory(NetNext(w, e).t.client) && CellHistory(NetNext(w, e).t.server)
  {
    hide CellHistory, Step, PipesInv;
    if e.Do? && e.move.Act? {
      ActKeepsHistory(w, e.move.side, e.move.act);
    }
  }

  lemma {:induction false} NextKeepsNetInv(w: Net, e: Event)
    requires NetInv(w)
    ensures NetInv(NetNext(w, e))
  {
    StepsAreTunnelSteps(w, e);
    if e.Do? {
      NextKeepsInv(w.t, e.move);
    }
    NodesKeepInv(w, e);
    PipesKeepInv(w, e);
    HistoriesKeep(w, e);
    hide PipesInv, CellHistory, Step;
  }

  lemma {:induction false} RunKeepsNetInv(session: nat, idle: Side -> nat, now: nat, log: Log, events: seq<Event>)
    requires Fresh(session, log)
    ensures NetInv(NetRun(NetBegin(session, idle, now, log), events))
  {
    if events != [] {
      var before := events[..|events| - 1];
      RunKeepsNetInv(session, idle, now, log, before);
      NextKeepsNetInv(NetRun(NetBegin(session, idle, now, log), before), events[|events| - 1]);
    }
  }

  // ------------------------------------------------------------ main results

  lemma CompletedMeansEqual(enc: Encrypting, dec: Decrypting, p: Pipe, k: Key, log: Log)
    requires Logged(k, enc.chunks, enc.frames, log) && Delivered(enc.chunks, enc.frames, dec)
    requires RelayLoop.EncInv(enc) && RelayLoop.DecInv(dec) && PipeInv(enc, dec, p)
    requires enc.pc == Finished(Completed) && dec.pc == Finished(Completed)
    ensures dec.plains == enc.chunks && dec.output == enc.input
  {
    var i := |dec.plains|;
    assert Concat(enc.frames[..i]) == Concat(enc.frames);
    if i < |enc.frames| {
      FewerRecordsFewerBytes(k, enc.chunks, enc.frames, log, i);
    }
    assert dec.plains == enc.chunks;
  }

  /** On a faithful network, when the sending copy task has returned Ok at its
      end of input and the receiving one has then returned Ok, the output is the
      input byte for byte, whatever the read sizes and the fragmentation. */
  lemma {:induction false} CompletedTransferIsExact(session: nat, idle: Side -> nat, now: nat,
                                                    log: Log, events: seq<Event>, side: Side)
    requires Fresh(session, log)
    ensures var t := NetRun(NetBegin(session, idle, now, log), events).t;
            var enc, dec := t.At(side).enc, t.At(Peer(side)).dec;
            enc.pc == Finished(Completed) && dec.pc == Finished(Completed) ==>
              dec.output == enc.input && dec.plains == enc.chunks
  {
    var w := NetRun(NetBegin(session, idle, now, log), events);
    RunKeepsNetInv(session, idle, now, log, events);
    var enc, dec := w.t.At(side).enc, w.t.At(Peer(side)).dec;
    if enc.pc == Finished(Completed) && dec.pc == Finished(Completed) {
      CompletedMeansEqual(enc, dec, w.From(side), Key(w.t.At(side).session, side), w.t.log);
    }
  }

  /** When both relays of a session return Ok, the client's application has got
      exactly what the server's destination sent. */
  lemma {:induction false} CompletedSessionIsExact(session: nat, idle: Side -> nat, now: nat,
                                                   log: Log, events: seq<Event>)
    requires Fresh(session, log)
    ensures var t := NetRun(NetBegin(session, idle, now, log), events).t;
            t.client.relay.exit.ReturnedOk? && t.server.relay.exit.ReturnedOk? ==>
              t.client.dec.output == t.server.enc.input
  {
    RunKeepsNetInv(session, idle, now, log, events);
    CompletedTransferIsExact(session, idle, now, log, events, Server);
  }

  /** On a faithful network, exactly when a receiver's clean end is a complete
      transfer, whatever became of the sending task: nothing sealed was left
      unwritten, and everything read was sealed. */
  lemma {:induction false} CleanEndIsWholeIff(session: nat, idle: Side -> nat, now: nat,
                                              log: Log, events: seq<Event>, side: Side)
    requires Fresh(session, log)
    ensures var t := NetRun(NetBegin(session, idle, now, log), events).t;
            var enc, dec := t.At(side).enc, t.At(Peer(side)).dec;
            dec.pc == Finished(Completed) ==>
              (dec.output == enc.input <==> enc.rest == [] && Concat(enc.chunks) == enc.input)
  {
    var w := NetRun(NetBegin(session, idle, now, log), events);
    RunKeepsNetInv(session, idle, now, log, events);
    var enc, dec, k := w.t.At(side).enc, w.t.At(Peer(side)).dec, Key(w.t.At(side).session, w.t.At(side).side);
    if dec.pc == Finished(Completed) {
      assert PipesInv(w, side);
      WholeIff(enc, dec, k, w.t.log);
      WrittenIff(enc, dec, w.From(side), k, w.t.log);
    }
  }

  /** With an empty pipe and a reader between records, everything sealed was
      opened iff everything sealed was written. */
  lemma WrittenIff(enc: Encrypting, dec: Decrypting, p: Pipe, k: Key, log: Log)
    requires Logged(k, enc.chunks, enc.frames, log) && Delivered(enc.chunks, enc.frames, dec)
    requires RelayLoop.EncInv(enc) && dec.consumed + p.flight == enc.written && p.flight == [] && dec.partial == []
    ensures enc.rest == [] <==> |dec.plains| == |enc.chunks|
  {
    var i := |dec.plains|;
    assert enc.written == Concat(enc.frames[..i]);
    if i < |enc.frames| {
      FewerRecordsFewerBytes(k, enc.chunks, enc.frames, log, i);
    } else {
      assert enc.frames[..i] == enc.frames;
      CancelLeft(enc.written, enc.rest, []);
    }
  }

  /** A faithful network is never blamed. The receiving task fails only through
      its own socket, through a stream cut inside a record because the sending
      task ended without completing, or because its own endpoint ran out of
      nonces or a task of it panicked under the lock. If the sender completed,
      it never fails by framing; and it never fails by the AEAD at all. */
  lemma {:induction false} NoFalseRejection(session: nat, idle: Side -> nat, now: nat,
                                            log: Log, events: seq<Event>, side: Side)
    requires Fresh(session, log)
    ensures var t := NetRun(NetBegin(session, idle, now, log), events).t;
            var n, enc := t.At(side), t.At(Peer(side)).enc;
            n.dec.pc.Finished? && n.dec.pc.result.Failed? ==>
              match n.dec.pc.result.reason
              case SocketError => true
              case FrameError(e) => e == UnexpectedEof && enc.pc.Finished? && enc.pc != Finished(Completed)
              case CipherError(e) =>
                || (e == PoisonedCipherState && n.enc.pc == Finished(Panicked))
                || ((e == ClosedSession || e == Noise(Exhausted)) && OutOfNonces(n))
  {
    RunKeepsNetInv(session, idle, now, log, events);
  }

  // --------------------------------------------- what has been sent can arrive

  /** The sender has ended well and the receiver can still work. */
  ghost predicate Deliverable(w: Net, side: Side) {
    var enc, n := w.t.At(side).enc, w.t.At(Peer(side));
    && NetInv(w)
    && enc.pc == Finished(Completed) && |enc.chunks| < LAST_NONCE
    && (n.dec.pc == Finished(Completed) || (!n.dec.pc.Finished? && n.cell.Live()))
  }

  /** Steps still needed: bytes in flight, then the phase of the receiver. */
  function Distance(w: Net, side: Side): nat {
    var pc := w.t.At(Peer(side)).dec.pc;
    4 * |w.From(side).flight| +
    if pc.Writing? then 4 else if pc.Flushing? then 3 else if pc.Reading? then 2 else if pc.Closing? then 1 else 0
  }

  /** The receiver's next move on its own. */
  function Nudge(w: Net, side: Side): Label {
    var dec, flight := w.t.At(Peer(side)).dec, w.From(side).flight;
    match dec.pc
    case Writing => DecWrite(|dec.rest|)
    case Flushing => DecFlush
    case Reading => if flight == [] then DecEof else DecRead(flight[..1])
    case Closing => DecShutdown
    case Finished(_) => DecShutdown
  }

  lemma WholeRecordIsNotMidRecord(cipher: bytes, tail: bytes)
    requires Payload(cipher)
    ensures !MidRecord(Frame(4, cipher) + tail)
  {
    HeaderWidths();
    FromToBe(|cipher|, 4);
    assert (Frame(4, cipher) + tail)[..4] == ToBe(|cipher|, 4);
  }

  /** What follows the first i records starts with record i. */
  lemma WhatFollows(frames: seq<bytes>, i: nat, more: bytes) returns (tail: bytes)
    requires i <= |frames| && Concat(frames) == Concat(frames[..i]) + more
    ensures i == |frames| ==> more == []
    ensures i < |frames| ==> more == frames[i] + tail
  {
    if i == |frames| {
      assert frames[..i] == frames;
      tail := [];
    } else {
      ConcatSplit(frames, i);
      tail := Concat(frames[i + 1..]);
      var before := Concat(frames[..i]);
      assert before + frames[i] + tail == before + (frames[i] + tail);
      CancelLeft(before, frames[i] + tail, more);
    }
  }

  /** Nothing in flight and nothing more to come: the reader is between records. */
  lemma EmptyPipeEndsBetweenRecords(k: Key, enc: Encrypting, dec: Decrypting, p: Pipe, log: Log)
    requires Logged(k, enc.chunks, enc.frames, log) && Delivered(enc.chunks, enc.frames, dec)
    requires RelayLoop.EncInv(enc) && enc.rest == [] && MidRecord(dec.partial)
    requires dec.consumed + p.flight == enc.written && p.flight == []
    ensures dec.partial == []
  {
    hide MidRecord, Frame;
    var i := |dec.plains|;
    var tail := WhatFollows(enc.frames, i, dec.partial);
    if i < |enc.frames| {
      assert Record(enc.chunks[i], enc.frames[i], log[(k, i)]);
      WholeRecordIsNotMidRecord(log[(k, i)].cipher, tail);
    }
  }

  /** With a live cipher state a read from a faithful network never fails. */
  lemma LiveReadSucceeds(n: Node, peer: Node, log: Log, p: Pipe, data: bytes)
    requires Paired(n, peer) && CellInv(n) && Sends(peer, log) && Receives(n, peer)
    requires RelayLoop.EncInv(peer.enc) && PipeInv(peer.enc, n.dec, p)
    requires n.dec.pc == Reading && 1 <= |data| <= Want(n.dec.partial) && data <= p.flight
    requires n.cell.Live() && |peer.enc.chunks| < LAST_NONCE
    ensures var m := DecReadStep(n, log, data);
            m.cell.Live() && (m.dec.pc.Reading? || m.dec.pc.Writing? || m.dec.pc.Flushing?)
  {
    ReadSucceeds(n, peer, log, p, data);
  }

  /** The receiver's own moves, other than reads, bring it one phase further. */
  lemma NudgeLocally(n: Node, log: Log, act: Label)
    requires n.cell.Live() && !n.dec.pc.Finished?
    requires n.dec.pc.Reading? ==> n.dec.partial == [] && act == DecEof
    requires n.dec.pc.Closing? ==> act == DecShutdown
    requires n.dec.pc.Writing? ==> n.dec.rest != [] && act == DecWrite(|n.dec.rest|)
    requires n.dec.pc.Flushing? ==> act == DecFlush
    ensures var m := Step(n, log, act).0;
            && m.cell.Live()
            && m.dec.pc == match n.dec.pc
                           case Reading => Closing
                           case Writing => Flushing
                           case Flushing => Pc.Reading
                           case Closing => Finished(Completed)
                           case Finished(_) => n.dec.pc
  {
  }

  lemma {:induction false} NudgeNode(w: Net, side: Side)
    requires Deliverable(w, side) && !w.t.At(Peer(side)).dec.pc.Finished?
    ensures var n, m := w.t.At(Peer(side)), Step(w.t.At(Peer(side)), w.t.log, Nudge(w, side)).0;
            && m.cell.Live()
            && (n.dec.pc.Reading? && w.From(side).flight != [] ==>
                m.dec.pc.Reading? || m.dec.pc.Writing? || m.dec.pc.Flushing?)
            && (n.dec.pc.Reading? && w.From(side).flight == [] ==> m.dec.pc.Closing?)
            && (n.dec.pc.Writing? ==> m.dec.pc.Flushing?)
            && (n.dec.pc.Flushing? ==> m.dec.pc.Reading?)
            && (n.dec.pc.Closing? ==> m.dec.pc == Finished(Completed))
  {
    hide DecReadStep, EncReadStep, DecStep, EncStep, FaultStep, PollStep, RelayStep, Logged, Delivered;
    var n, peer, p := w.t.At(Peer(side)), w.t.At(side), w.From(side);
    assert PipesInv(w, side);
    if n.dec.pc.Reading? && p.flight != [] {
      assert p.flight[..1] <= p.flight;
      LiveReadSucceeds(n, peer, w.t.log, p, p.flight[..1]);
    } else {
      if n.dec.pc.Reading? {
        EmptyPipeEndsBetweenRecords(Key(peer.session, peer.side), peer.enc, n.dec, p, w.t.log);
      }
      NudgeLocally(n, w.t.log, Nudge(w, side));
    }
  }

  /** What a nudge does to the network. */
  lemma NudgeEffect(w: Net, side: Side)
    requires PipesInv(w, side) && !w.t.At(Peer(side)).dec.pc.Finished? && w.t.At(side).enc.pc == Finished(Completed)
    ensures var n, w' := w.t.At(Peer(side)), NetNext(w, Do(Act(Peer(side), Nudge(w, side))));
            && w'.t.At(side) == w.t.At(side)
            && w'.t.At(Peer(side)) == Step(n, w.t.log, Nudge(w, side)).0
            && |w'.From(side).flight| ==
               |w.From(side).flight| - if n.dec.pc.Reading? && w.From(side).flight != [] then 1 else 0
  {
    var n, p := w.t.At(Peer(side)), w.From(side);
    assert PipeInv(w.t.At(side).enc, n.dec, p);
    if n.dec.pc.Reading? {
      if p.flight == [] {
        assert p.closed;
      } else {
        assert 1 <= Want(n.dec.partial);
      }
    }
  }

  lemma {:induction false} NudgeDelivers(w: Net, side: Side)
    requires Deliverable(w, side) && !w.t.At(Peer(side)).dec.pc.Finished?
    ensures var w' := NetNext(w, Do(Act(Peer(side), Nudge(w, side))));
            Deliverable(w', side) && Distance(w', side) < Distance(w, side) && w'.t.At(side).enc == w.t.At(side).enc
  {
    var w' := NetNext(w, Do(Act(Peer(side), Nudge(w, side))));
    assert NetInv(w') by {
      NextKeepsNetInv(w, Do(Act(Peer(side), Nudge(w, side))));
    }
    NudgeNode(w, side);
    assert PipesInv(w, side);
    NudgeEffect(w, side);
    hide Step, NetNext, NetInv, PipesInv, Nudge;
  }

  lemma {:induction false} DeliveredAlready(w: Net, side: Side)
    requires Deliverable(w, side) && w.t.At(Peer(side)).dec.pc.Finished?
    ensures w.t.At(Peer(side)).dec.output == w.t.At(side).enc.input
  {
    assert PipesInv(w, side);
    CompletedMeansEqual(w.t.At(side).enc, w.t.At(Peer(side)).dec, w.From(side),
                        Key(w.t.At(side).session, w.t.At(side).side), w.t.log);
  }

  /** Whatever a sender completed can be delivered: from every reachable state of
      a faithful network in which the sending task has returned Ok and the
      receiving one has not failed and still has its cipher state, the receiver
      alone can go on to return Ok with the whole input as its output. */
  lemma {:induction false} SentCanBeDelivered(w: Net, side: Side) returns (events: seq<Event>)
    requires Deliverable(w, side)
    ensures var end := NetRun(w, events).t;
            && end.At(Peer(side)).dec.pc == Finished(Completed)
            && end.At(Peer(side)).dec.output == end.At(side).enc.input && end.At(side).enc == w.t.At(side).enc
    decreases Distance(w, side)
  {
    if w.t.At(Peer(side)).dec.pc.Finished? {
      events := [];
      DeliveredAlready(w, side);
    } else {
      var e := Do(Act(Peer(side), Nudge(w, side)));
      NudgeDelivers(w, side);
      var rest := SentCanBeDelivered(NetNext(w, e), side);
      events := [e] + rest;
      NetRunFirst(w, e, rest);
    }
  }

  lemma {:induction false} NetRunFirst(w: Net, e: Event, rest: seq<Event>)
    ensures NetRun(w, [e] + rest) == NetRun(NetNext(w, e), rest)
  {
    if rest == [] {
      assert [e] + rest == [e] && [e][..0] == [];
      assert NetRun(w, []) == w;
    } else {
      var front := rest[..|rest| - 1];
      assert ([e] + rest)[..|rest|] == [e] + front;
      NetRunFirst(w, e, front);
    }
  }

  // ------------------------------------------- every input can be transferred

  lemma {:induction false} NetRunAppend(w: Net, a: seq<Event>, b: seq<Event>)
    ensures NetRun(w, a + b) == NetRun(NetRun(w, a), b)
  {
    if b == [] {
      assert a + b == a;
    } else {
      var front := b[..|b| - 1];
      assert (a + b)[..|a + b| - 1] == a + front;
      NetRunAppend(w, a, front);
    }
  }

  /** The sender is between two records, and nothing stands in the way of either
      side. */
  ghost predicate Sending(w: Net, side: Side) {
    var n, peer := w.t.At(side), w.t.At(Peer(side));
    && NetInv(w) && n.enc.pc == Reading && n.cell.Live()
    && (peer.dec.pc == Finished(Completed) || (!peer.dec.pc.Finished? && peer.cell.Live()))
  }

  /** What a network does with the sender's own moves. */
  lemma SenderMoves(w: Net, side: Side, act: Label)
    requires act.EncRead? || act.EncWrite? || act.EncFlush? || act.EncEof? || act.EncShutdown?
    requires act.EncWrite? ==> w.t.At(side).enc.pc == Writing && 1 <= act.count <= |w.t.At(side).enc.rest|
    requires act.EncShutdown? ==> w.t.At(side).enc.pc == Closing
    ensures var w' := NetNext(w, Do(Act(side, act)));
            && w'.t.At(side) == Step(w.t.At(side), w.t.log, act).0 && w'.t.At(Peer(side)) == w.t.At(Peer(side))
            && w'.t.log == Step(w.t.At(side), w.t.log, act).1
  {
    hide Step;
  }

  lemma NetRunThree(w: Net, a: Event, b: Event, c: Event)
    ensures NetRun(w, [a, b, c]) == NetNext(NetNext(NetNext(w, a), b), c)
  {
    assert [a, b, c][..2] == [a, b] && [a, b][..1] == [a] && [a][..0] == [];
    assert NetRun(w, []) == w;
    hide NetNext;
    assert NetRun(w, [a]) == NetNext(w, a);
    assert NetRun(w, [a, b]) == NetNext(NetNext(w, a), b);
  }

  lemma SendingKeeps(w: Net, a: Event, b: Event, c: Event)
    requires NetInv(w)
    ensures NetInv(NetNext(NetNext(NetNext(w, a), b), c))
  {
    hide NetInv, NetNext;
    NextKeepsNetInv(w, a);
    NextKeepsNetInv(NetNext(w, a), b);
    NextKeepsNetInv(NetNext(NetNext(w, a), b), c);
  }

  /** One chunk on its way through the sender. */
  lemma SenderTakes(w: Net, side: Side, chunk: bytes, cipher: bytes)
    requires w.t.At(side).enc.pc == Reading && Ready(w.t.At(side).cell, true)
    requires 1 <= |chunk| <= MAX_PLAINTEXT_RECORD && |cipher| == |chunk| + TAG_LENGTH
    ensures var read, write := Do(Act(side, EncRead(chunk, cipher))), Do(Act(side, EncWrite(4 + |cipher|)));
            var w', n := NetNext(NetNext(NetNext(w, read), write), Do(Act(side, EncFlush))), w.t.At(side);
            && w'.t.At(Peer(side)) == w.t.At(Peer(side)) && w'.t.At(side).enc.pc == Reading && w'.t.At(side).cell.Live()
            && w'.t.At(side).enc.input == n.enc.input + chunk && w'.t.At(side).enc.chunks == n.enc.chunks + [chunk]
  {
    var read, write := Do(Act(side, EncRead(chunk, cipher))), Do(Act(side, EncWrite(4 + |cipher|)));
    hide NetNext, Step;
    Steps.ReadIsSealed(w.t.At(side), w.t.log, chunk, cipher);
    SenderMoves(w, side, read.move.act);
    var w1 := NetNext(w, read);
    Steps.WriteMoves(w1.t.At(side), w1.t.log, 4 + |cipher|);
    SenderMoves(w1, side, write.move.act);
    var w2 := NetNext(w1, write);
    Steps.EncryptGoesOn(w2.t.At(side), w2.t.log);
    SenderMoves(w2, side, EncFlush);
  }

  /** One chunk of any size goes into the pipe as one record. */
  lemma SendChunk(w: Net, side: Side, chunk: bytes) returns (events: seq<Event>)
    requires Sending(w, side) && 1 <= |chunk| <= MAX_PLAINTEXT_RECORD && |w.t.At(side).enc.chunks| < LAST_NONCE
    ensures var w', enc := NetRun(w, events), w.t.At(side).enc;
            && Sending(w', side) && w'.t.At(Peer(side)) == w.t.At(Peer(side))
            && w'.t.At(side).enc.input == enc.input + chunk && w'.t.At(side).enc.chunks == enc.chunks + [chunk]
  {
    var cipher := chunk + seq(TAG_LENGTH, _ => 0);
    var read := Do(Act(side, EncRead(chunk, cipher)));
    var write, flush := Do(Act(side, EncWrite(4 + |cipher|))), Do(Act(side, EncFlush));
    events := [read, write, flush];
    assert Ready(w.t.At(side).cell, true);
    hide NetRun, NetNext, NetInv;
    NetRunThree(w, read, write, flush);
    SendingKeeps(w, read, write, flush);
    SenderTakes(w, side, chunk, cipher);
  }

  lemma {:induction false} SendChunks(w: Net, side: Side, chunks: seq<bytes>) returns (events: seq<Event>)
    requires Sending(w, side) && |w.t.At(side).enc.chunks| + |chunks| <= LAST_NONCE
    requires forall c :: c in chunks ==> 1 <= |c| <= MAX_PLAINTEXT_RECORD
    ensures var w', enc := NetRun(w, events), w.t.At(side).enc;
            && Sending(w', side) && w'.t.At(Peer(side)) == w.t.At(Peer(side))
            && w'.t.At(side).enc.input == enc.input + Concat(chunks) && w'.t.At(side).enc.chunks == enc.chunks + chunks
  {
    hide *;
    if chunks == [] {
      events := [];
      NothingYet(w, side);
    } else {
      var front, last := chunks[..|chunks| - 1], chunks[|chunks| - 1];
      var before := SendChunks(w, side, front);
      var w1, enc := NetRun(w, before), w.t.At(side).enc;
      var more := SendChunk(w1, side, last);
      NetRunAppend(w, before, more);
      events := before + more;
      OneMoreChunk(enc.input, enc.chunks, front, last);
      assert chunks == front + [last];
    }
  }

  lemma NothingYet(w: Net, side: Side)
    ensures NetRun(w, []) == w && w.t.At(side).enc.input + Concat([]) == w.t.At(side).enc.input
    ensures w.t.At(side).enc.chunks + [] == w.t.At(side).enc.chunks
  {
    hide NetNext;
  }

  lemma OneMoreChunk(input: bytes, chunks: seq<bytes>, front: seq<bytes>, last: bytes)
    ensures input + Concat(front) + last == input + Concat(front + [last])
    ensures chunks + front + [last] == chunks + (front + [last])
  {
    ConcatSnoc(front, last);
    hide Concat;
    assert input + Concat(front) + last == input + (Concat(front) + last);
  }

  /** The end of the input closes the writer and completes the task. */
  lemma SenderCompletes(w: Net, side: Side) returns (events: seq<Event>)
    requires Sending(w, side) && |w.t.At(side).enc.chunks| < LAST_NONCE
    ensures var w' := NetRun(w, events);
            && Deliverable(w', side) && w'.t.At(side).enc.input == w.t.At(side).enc.input
            && w'.t.At(side).enc.pc == Finished(Completed)
  {
    var eof, shut := Do(Act(side, EncEof)), Do(Act(side, EncShutdown));
    events := [eof, shut];
    NetRunFirst(w, eof, [shut]);
    NetRunFirst(NetNext(w, eof), shut, []);
    assert [eof] + [shut] == events && [shut] + [] == [shut];
    assert NetRun(w, events) == NetNext(NetNext(w, eof), shut);
    hide NetRun;
    NextKeepsNetInv(w, eof);
    NextKeepsNetInv(NetNext(w, eof), shut);
    hide NetInv, NetNext, Step;
    Steps.EncryptGoesOn(w.t.At(side), w.t.log);
    SenderMoves(w, side, EncEof);
    var w1 := NetNext(w, eof);
    Steps.EncryptGoesOn(w1.t.At(side), w1.t.log);
    SenderMoves(w1, side, EncShutdown);
  }

  /** Every input can be transferred, however the application hands it over: from
      any state in which nothing stands in the way, and for any further chunks
      the nonces suffice for, the run can go on so that both tasks return Ok and
      the output is everything that was read, then and before. */
  lemma EveryInputCanBeTransferred(w: Net, side: Side, chunks: seq<bytes>) returns (events: seq<Event>)
    requires Sending(w, side) && |w.t.At(side).enc.chunks| + |chunks| < LAST_NONCE
    requires forall c :: c in chunks ==> 1 <= |c| <= MAX_PLAINTEXT_RECORD
    ensures var end := NetRun(w, events).t;
            && end.At(side).enc.pc == Finished(Completed) && end.At(Peer(side)).dec.pc == Finished(Completed)
            && end.At(Peer(side)).dec.output == end.At(side).enc.input == w.t.At(side).enc.input + Concat(chunks)
  {
    hide *;
    var a := SendChunks(w, side, chunks);
    var w1 := NetRun(w, a);
    var b := SenderCompletes(w1, side);
    NetRunAppend(w, a, b);
    var w2 := NetRun(w1, b);
    var c := SentCanBeDelivered(w2, side);
    NetRunAppend(w, a + b, c);
    events := a + b + c;
  }

  /** In particular from the beginning of a session, in either direction. */
  lemma WholeTransferIsPossible(session: nat, idle: Side -> nat, now: nat, log: Log, side: Side, chunks: seq<bytes>)
    returns (events: seq<Event>)
    requires Fresh(session, log) && |chunks| < LAST_NONCE
    requires forall c :: c in chunks ==> 1 <= |c| <= MAX_PLAINTEXT_RECORD
    ensures var end := NetRun(NetBegin(session, idle, now, log), events).t;
            && end.At(side).enc.pc == Finished(Completed) && end.At(Peer(side)).dec.pc == Finished(Completed)
            && end.At(Peer(side)).dec.output == end.At(side).enc.input == Concat(chunks)
  {
    var w := NetBegin(session, idle, now, log);
    RunKeepsNetInv(session, idle, now, log, []);
    assert NetRun(w, []) == w;
    events := EveryInputCanBeTransferred(w, side, chunks);
    assert [] + Concat(chunks) == Concat(chunks);
  }

  /** Any fragmentation: the network can hand over any non-empty part of what is
      in flight, up to what the reader asks for, and any part of a record can be
      written; the pipe keeps the rest in order. It ends when its writer is shut
      down or its endpoint is gone. No other step touches it. */
  lemma PipeMoves(w: Net, side: Side, data: bytes, count: nat, act: Label)
    ensures !act.EncWrite? && !act.EncShutdown? && !act.DecRead? && !act.DecEof? ==>
              NetNext(w, Do(Act(side, act))) == w.(t := Next(w.t, Act(side, act)))
    ensures w.t.At(side).enc.pc == Closing ==>
              var w' := NetNext(w, Do(Act(side, EncShutdown)));
              w'.t == Next(w.t, Act(side, EncShutdown)) && w'.From(side) == w.From(side).(closed := true)
    ensures var n, p := w.t.At(Peer(side)), w.From(side);
            n.dec.pc == Reading && 1 <= |data| <= Want(n.dec.partial) && data <= p.flight ==>
              var w' := NetNext(w, Do(Act(Peer(side), DecRead(data))));
              w'.t == Next(w.t, Act(Peer(side), DecRead(data))) && data + w'.From(side).flight == p.flight
    ensures var n, p := w.t.At(side), w.From(side);
            n.enc.pc == Writing && 1 <= count <= |n.enc.rest| ==>
              var w' := NetNext(w, Do(Act(side, EncWrite(count))));
              w'.t == Next(w.t, Act(side, EncWrite(count))) && w'.From(side).flight == p.flight + n.enc.rest[..count]
    ensures w.From(side).flight == [] && w.From(side).closed ==>
              NetNext(w, Do(Act(Peer(side), DecEof))).t == Next(w.t, Act(Peer(side), DecEof))
    ensures RelayLoop.BothFinished(w.t.At(side)) ==>
              NetNext(w, DropSocket(side)).From(side) == w.From(side).(closed := true)
  {
    hide Next;
  }
}
