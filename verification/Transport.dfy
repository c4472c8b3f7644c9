/** The cipher state that the two relay tasks of one endpoint share, and the
    record operations on it (crates/secure-tunnel/src/lib.rs:371-463). */
module Transport {
  import opened Basics
  import opened Wire

  // -------------------------------------------------------------- ideal AEAD

  /** One traffic key per session and sending side, as the Noise split yields. */
  datatype Key = Key(session: nat, from: Side)

  datatype Sealed = Sealed(plain: bytes, cipher: bytes)

  /** Everything ever encrypted, by key and nonce. */
  type Log = map<(Key, nat), Sealed>

  /** The largest nonce is reserved: it never encrypts or decrypts. */
  const LAST_NONCE: nat := 0xFFFF_FFFF_FFFF_FFFF

  /** Ideal authenticated decryption: the ciphertext opens iff it is the one a
      holder of the key produced at exactly this nonce. */
  function IdealOpen(log: Log, key: Key, nonce: nat, cipher: bytes): Option<bytes> {
    if (key, nonce) in log && log[(key, nonce)].cipher == cipher then Some(log[(key, nonce)].plain) else None
  }

  /** RFC 8439, section 2.8: a ciphertext is its plaintext plus a 16-byte tag. */
  predicate Tagged(log: Log) {
    forall k :: k in log ==> |log[k].cipher| == |log[k].plain| + TAG_LENGTH
  }

  // -------------------------------------------------- specification functions

  datatype TransportState = TransportState(sendKey: Key, recvKey: Key, sendNonce: nat, recvNonce: nat)

  /** The mutex-guarded optional state: absent after a failure, poisoned after a
      panic under the lock. */
  datatype Cell = Cell(state: Option<TransportState>, poisoned: bool)
  {
    predicate Live() { state.Some? && !poisoned }
  }

  const CLOSED := Cell(None, false)

  datatype Outcome = Outcome(cell: Cell, log: Log, result: Result<bytes, TunnelError>)

  /** seal_record; `cipher` is what the AEAD returns for this plaintext. */
  function Seal(cell: Cell, log: Log, plain: bytes, cipher: bytes): Outcome {
    if |plain| > MAX_PLAINTEXT_RECORD then Outcome(cell, log, Err(PlaintextTooLarge(|plain|)))
    else if cell.poisoned then Outcome(cell, log, Err(PoisonedCipherState))
    else if cell.state.None? then Outcome(cell, log, Err(ClosedSession))
    else
      var t := cell.state.value;
      if t.sendNonce >= LAST_NONCE then Outcome(CLOSED, log, Err(Noise(Exhausted)))
      else
        var log' := log[(t.sendKey, t.sendNonce) := Sealed(plain, cipher)];
        if |cipher| > MAX_CIPHERTEXT_RECORD then Outcome(CLOSED, log', Err(CiphertextTooLarge(|cipher|)))
        else Outcome(Cell(Some(t.(sendNonce := t.sendNonce + 1)), false), log', Ok(Frame(4, cipher)))
  }

  /** open_record. */
  function Open(cell: Cell, log: Log, frame: bytes): Outcome {
    var decoded := DecodeRecordFrame(frame);
    if decoded.Err? then Outcome(cell, log, Err(decoded.error))
    else if cell.poisoned then Outcome(cell, log, Err(PoisonedCipherState))
    else if cell.state.None? then Outcome(cell, log, Err(ClosedSession))
    else
      var t := cell.state.value;
      if t.recvNonce >= LAST_NONCE then Outcome(CLOSED, log, Err(Noise(Exhausted)))
      else
        match IdealOpen(log, t.recvKey, t.recvNonce, decoded.value)
        case None => Outcome(CLOSED, log, Err(Noise(Decrypt)))
        case Some(plain) =>
          if |plain| > MAX_PLAINTEXT_RECORD then Outcome(CLOSED, log, Err(PlaintextTooLarge(|plain|)))
          else Outcome(Cell(Some(t.(recvNonce := t.recvNonce + 1)), false), log, Ok(plain))
  }

  /** A sealed frame opens, at the peer's matching nonce, to its plaintext; the
      size checks after the cipher never fire, because the tag is 16 bytes. */
  lemma SealOpenRoundTrip(cell: Cell, peer: Cell, log: Log, plain: bytes, cipher: bytes)
    requires cell.Live() && peer.Live() && |cipher| == |plain| + TAG_LENGTH && |plain| <= MAX_PLAINTEXT_RECORD
    requires cell.state.value.sendNonce < LAST_NONCE
    requires peer.state.value.recvKey == cell.state.value.sendKey
    requires peer.state.value.recvNonce == cell.state.value.sendNonce
    ensures var sent := Seal(cell, log, plain, cipher);
            sent.result.Ok? && Open(peer, sent.log, sent.result.value).result == Ok(plain)
  {
    HeaderWidths();
    DecodeExact(Frame(4, cipher), 4, MAX_CIPHERTEXT_RECORD, false, cipher);
  }

  lemma PostCipherSizeErrorsUnreachable(cell: Cell, log: Log, plain: bytes, cipher: bytes, frame: bytes)
    requires Tagged(log) && |cipher| == |plain| + TAG_LENGTH
    ensures forall n :: Seal(cell, log, plain, cipher).result != Err(CiphertextTooLarge(n))
    ensures forall n :: Open(cell, log, frame).result != Err(PlaintextTooLarge(n))
    ensures Tagged(Seal(cell, log, plain, cipher).log)
  {
    if DecodeRecordFrame(frame).Ok? {
      HeaderWidths();
      DecodeExact(frame, 4, MAX_CIPHERTEXT_RECORD, false, DecodeRecordFrame(frame).value);
    }
  }

  /** A call on this state reaches the cipher: it is there, not poisoned, and
      the nonce it would use is not the reserved one. */
  predicate Ready(cell: Cell, sending: bool) {
    cell.Live() && (if sending then cell.state.value.sendNonce else cell.state.value.recvNonce) < LAST_NONCE
  }

  /** Which refusal a well-formed call gets on a state that is not ready. */
  function Refusal(cell: Cell): TunnelError {
    if cell.poisoned then PoisonedCipherState else if cell.state.None? then ClosedSession else Noise(Exhausted)
  }

  /** What opening answers, case by case: a mis-framed input is the decoder's
      error; then the state decides; and on a ready state the plaintext comes
      out iff the ciphertext is genuine at this key and nonce, and a decryption
      error iff it is not. */
  ghost predicate OpenAnswers(cell: Cell, log: Log, frame: bytes, r: Result<bytes, TunnelError>) {
    var decoded := DecodeRecordFrame(frame);
    && (decoded.Err? ==> r == Err(decoded.error))
    && (decoded.Ok? && !Ready(cell, false) ==> r == Err(Refusal(cell)))
    && (decoded.Ok? && Ready(cell, false) ==>
          var t := cell.state.value;
          var genuine := IdealOpen(log, t.recvKey, t.recvNonce, decoded.value);
          && (r == Err(Noise(Decrypt)) <==> genuine == None)
          && (forall plain :: r == Ok(plain) <==> genuine == Some(plain)))
  }

  lemma OpenIsAnswered(cell: Cell, log: Log, frame: bytes)
    requires Tagged(log)
    ensures OpenAnswers(cell, log, frame, Open(cell, log, frame).result)
  {
    PostCipherSizeErrorsUnreachable(cell, log, [], seq(TAG_LENGTH, _ => 0), frame);
  }

  /** What sealing answers, and leaves behind: an oversized plaintext is refused
      with its size and nothing happens; then the state decides; and on a ready
      state every plaintext becomes a frame and uses one nonce. */
  predicate SealAnswers(cell: Cell, log: Log, plain: bytes, cipher: bytes, o: Outcome) {
    && (|plain| > MAX_PLAINTEXT_RECORD ==> o == Outcome(cell, log, Err(PlaintextTooLarge(|plain|))))
    && (|plain| <= MAX_PLAINTEXT_RECORD && !Ready(cell, true) ==>
          o.result == Err(Refusal(cell)) && o.log == log && o.cell == if cell.Live() then CLOSED else cell)
    && (|plain| <= MAX_PLAINTEXT_RECORD && Ready(cell, true) ==>
          var t := cell.state.value;
          && o.result == Ok(Frame(4, cipher))
          && o.cell == Cell(Some(t.(sendNonce := t.sendNonce + 1)), false)
          && o.log == log[(t.sendKey, t.sendNonce) := Sealed(plain, cipher)])
  }

  lemma SealIsAnswered(cell: Cell, log: Log, plain: bytes, cipher: bytes)
    requires |cipher| == |plain| + TAG_LENGTH
    ensures SealAnswers(cell, log, plain, cipher, Seal(cell, log, plain, cipher))
  {
  }

  // ------------------------------------------------------- any call sequence

  /** One call on either half. `log` is what has been encrypted anywhere by the
      time of an opening call. */
  datatype Op = SealOp(plain: bytes, cipher: bytes) | OpenOp(frame: bytes, log: Log)

  /** Outcome of a call sequence: the answers, and the nonces used to send and
      accepted on receipt, in order. */
  datatype Trace = Trace(cell: Cell, answers: seq<Result<bytes, TunnelError>>, sent: seq<nat>, accepted: seq<nat>)

  function Call(cell: Cell, op: Op): (Cell, Result<bytes, TunnelError>) {
    match op
    case SealOp(plain, cipher) =>
      var o := Seal(cell, map[], plain, cipher);
      (o.cell, o.result)
    case OpenOp(frame, log) =>
      var o := Open(cell, log, frame);
      (o.cell, o.result)
  }

  /** The trace after one more call. */
  function Extend(t: Trace, op: Op): Trace {
    var (after, answer) := Call(t.cell, op);
    var used := answer.Ok? && t.cell.state.Some?;
    Trace(after,
          t.answers + [answer],
          if used && op.SealOp? then t.sent + [t.cell.state.value.sendNonce] else t.sent,
          if used && op.OpenOp? then t.accepted + [t.cell.state.value.recvNonce] else t.accepted)
  }

  function Run(cell: Cell, ops: seq<Op>): Trace {
    if ops == [] then Trace(cell, [], [], []) else Extend(Run(cell, ops[..|ops| - 1]), ops[|ops| - 1])
  }

  predicate PreCipher(e: TunnelError) {
    e.PlaintextTooLarge? || e.TruncatedFrame? || e.TrailingFrameBytes? || e.CiphertextTooLarge?
  }

  /** One call on live state either succeeds, or fails before the state was
      taken and changes nothing, or fails after and destroys the state. */
  lemma CallTrichotomy(cell: Cell, op: Op)
    requires cell.Live()
    requires op.SealOp? ==> |op.cipher| == |op.plain| + TAG_LENGTH
    requires op.OpenOp? ==> Tagged(op.log)
    ensures var (after, answer) := Call(cell, op);
            if answer.Ok? then after.Live() && after != cell
            else if PreCipher(answer.error) then after == cell
            else after == CLOSED
  {
    match op
    case SealOp(plain, cipher) =>
      PostCipherSizeErrorsUnreachable(cell, map[], plain, cipher, []);
    case OpenOp(frame, log) =>
      PostCipherSizeErrorsUnreachable(cell, log, [], seq(TAG_LENGTH, _ => 0), frame);
  }

  /** Fail-closed through sharing: once the state is gone (or poisoned), every
      later call on either half is refused and the state never comes back. */
  lemma {:induction false} FailClosed(cell: Cell, ops: seq<Op>)
    requires !cell.Live()
    ensures Run(cell, ops).cell == cell
    ensures |Run(cell, ops).answers| == |ops|
    ensures forall r :: r in Run(cell, ops).answers ==> r.Err?
    ensures Run(cell, ops).sent == [] && Run(cell, ops).accepted == []
  {
    if ops != [] {
      FailClosed(cell, ops[..|ops| - 1]);
    }
  }

  // ------------------------------------------- two independent one-way halves

  /** The calls of one half only. */
  function Half(ops: seq<Op>, seals: bool): seq<Op> {
    if ops == [] then []
    else
      var before := Half(ops[..|ops| - 1], seals);
      if ops[|ops| - 1].SealOp? == seals then before + [ops[|ops| - 1]] else before
  }

  /** The answers an interleaving gave to the calls of one half. */
  function Answers(ops: seq<Op>, answers: seq<Result<bytes, TunnelError>>, seals: bool): seq<Result<bytes, TunnelError>>
    requires |ops| == |answers|
  {
    if ops == [] then []
    else
      var before := Answers(ops[..|ops| - 1], answers[..|ops| - 1], seals);
      if ops[|ops| - 1].SealOp? == seals then before + [answers[|ops| - 1]] else before
  }

  predicate Counts(nonces: seq<nat>, from: nat) {
    forall i :: 0 <= i < |nonces| ==> nonces[i] == from + i
  }

  /** An interleaving agrees with its two halves run apart. */
  ghost predicate Agrees(start: TransportState, both: Trace, tx: Trace, rx: Trace,
                         txAnswers: seq<Result<bytes, TunnelError>>, rxAnswers: seq<Result<bytes, TunnelError>>)
  {
    && txAnswers == tx.answers && rxAnswers == rx.answers
    && both.sent == tx.sent && both.accepted == rx.accepted
    && Counts(both.sent, start.sendNonce) && Counts(both.accepted, start.recvNonce)
    && (both.cell.Live() <==> tx.cell.Live() && rx.cell.Live())
    && (both.cell.Live() ==>
          && both.cell.state.value == start.(sendNonce := start.sendNonce + |both.sent|,
                                             recvNonce := start.recvNonce + |both.accepted|)
          && tx.cell.state.value == start.(sendNonce := start.sendNonce + |both.sent|)
          && rx.cell.state.value == start.(recvNonce := start.recvNonce + |both.accepted|))
  }

  /** How many calls are answered on live state: all, or those up to and
      including the one that destroys it. */
  function Lifetime(cell: Cell, ops: seq<Op>): (n: nat)
    ensures n <= |ops|
  {
    if ops == [] then 0
    else if Run(cell, ops[..|ops| - 1]).cell.Live() then |ops|
    else Lifetime(cell, ops[..|ops| - 1])
  }

  /** The first n calls of an interleaving agree with their halves run apart. */
  ghost predicate AgreesUpTo(cell: Cell, ops: seq<Op>, n: nat)
    requires cell.Live() && n <= |ops|
  {
    var part := ops[..n];
    var both := Run(cell, part);
    && |both.answers| == n
    && Agrees(cell.state.value, both, Run(cell, Half(part, true)), Run(cell, Half(part, false)),
              Answers(part, both.answers, true), Answers(part, both.answers, false))
  }

  /** Later calls: all refused, no nonce used, the state not coming back. */
  predicate OnlyRefusals(before: Trace, after: Trace) {
    && before.answers <= after.answers
    && (forall r :: r in after.answers[|before.answers|..] ==> r.Err?)
    && after.sent == before.sent && after.accepted == before.accepted && after.cell == before.cell
  }

  lemma StartAgrees(cell: Cell)
    requires cell.Live()
    ensures Agrees(cell.state.value, Run(cell, []), Run(cell, []), Run(cell, []), [], [])
  {
  }

  /** Any interleaving of the two halves on the shared state behaves like the
      two halves run apart, up to and including the call that destroys the state
      if there is one: each half gets the same answers, and each uses its nonces
      once each and in order; the state is destroyed iff one of the halves alone
      would be. From then on every call is refused and uses no nonce, so over
      the whole sequence, too, the nonces are consecutive from the start. */
  lemma {:induction false} SharedStateIsTwoChannels(cell: Cell, ops: seq<Op>)
    requires cell.Live()
    ensures var n := Lifetime(cell, ops);
            && AgreesUpTo(cell, ops, n)
            && OnlyRefusals(Run(cell, ops[..n]), Run(cell, ops))
            && (n < |ops| ==> !Run(cell, ops[..n]).cell.Live())
            && Counts(Run(cell, ops).sent, cell.state.value.sendNonce)
            && Counts(Run(cell, ops).accepted, cell.state.value.recvNonce)
            && (Run(cell, ops).cell.Live() <==>
                Run(cell, Half(ops, true)).cell.Live() && Run(cell, Half(ops, false)).cell.Live())
  {
    var n := Lifetime(cell, ops);
    LiveCallsAgree(cell, ops, n);
    DeadCallsRefuse(cell, ops);
    if !Run(cell, Half(ops[..n], true)).cell.Live() {
      DeadHalfStays(cell, ops, n, true);
    } else if !Run(cell, Half(ops[..n], false)).cell.Live() {
      DeadHalfStays(cell, ops, n, false);
    } else {
      assert n == |ops| && ops[..n] == ops;
    }
    hide Run, Half, Answers;
  }

  lemma {:induction false} DeadHalfStays(cell: Cell, ops: seq<Op>, n: nat, seals: bool)
    requires n <= |ops| && !Run(cell, Half(ops[..n], seals)).cell.Live()
    ensures !Run(cell, Half(ops, seals)).cell.Live()
  {
    hide Call;
    if n == |ops| {
      assert ops[..n] == ops;
    } else {
      var before, op := ops[..|ops| - 1], ops[|ops| - 1];
      assert before[..n] == ops[..n];
      DeadHalfStays(cell, before, n, seals);
      if op.SealOp? == seals {
        var half := Half(before, seals);
        assert (half + [op])[..|half|] == half;
        DeadCall(Run(cell, half), op);
      }
    }
  }

  /** Before the end of the lifetime the state is live. */
  lemma {:induction false} LifetimeOfPrefix(cell: Cell, ops: seq<Op>, n: nat)
    requires n < Lifetime(cell, ops)
    ensures Run(cell, ops[..n]).cell.Live()
  {
    if n < |ops| - 1 || !Run(cell, ops[..|ops| - 1]).cell.Live() {
      LifetimeOfPrefix(cell, ops[..|ops| - 1], n);
      assert ops[..|ops| - 1][..n] == ops[..n];
    }
  }

  /** While the state lives each call agrees with the same call on its half. */
  lemma {:induction false} LiveCallsAgree(cell: Cell, ops: seq<Op>, n: nat)
    requires cell.Live() && n <= Lifetime(cell, ops)
    ensures AgreesUpTo(cell, ops, n)
  {
    hide Call, Agrees;
    if n == 0 {
      StartAgrees(cell);
      assert ops[..0] == [];
    } else {
      var before, op := ops[..n - 1], ops[n - 1];
      LiveCallsAgree(cell, ops, n - 1);
      LifetimeOfPrefix(cell, ops, n - 1);
      assert ops[..n][..n - 1] == before;
      var both, half := Run(cell, before), Half(before, op.SealOp?);
      var tx, rx := Run(cell, Half(before, true)), Run(cell, Half(before, false));
      assert (half + [op])[..|half|] == half;
      assert Run(cell, half + [op]) == Extend(Run(cell, half), op);
      assert Extend(both, op).answers[..|before|] == both.answers;
      ExtendAgrees(cell.state.value, both, tx, rx, Answers(before, both.answers, true),
                   Answers(before, both.answers, false), op);
    }
  }

  lemma ExtendAgrees(start: TransportState, both: Trace, tx: Trace, rx: Trace,
                     txAnswers: seq<Result<bytes, TunnelError>>, rxAnswers: seq<Result<bytes, TunnelError>>, op: Op)
    requires Agrees(start, both, tx, rx, txAnswers, rxAnswers) && both.cell.Live()
    ensures var answer := [Call(both.cell, op).1];
            if op.SealOp? then Agrees(start, Extend(both, op), Extend(tx, op), rx, txAnswers + answer, rxAnswers)
            else Agrees(start, Extend(both, op), tx, Extend(rx, op), txAnswers, rxAnswers + answer)
  {
  }

  lemma {:induction false} DeadCallsRefuse(cell: Cell, ops: seq<Op>)
    ensures var n := Lifetime(cell, ops);
            && OnlyRefusals(Run(cell, ops[..n]), Run(cell, ops))
            && (n < |ops| ==> !Run(cell, ops[..n]).cell.Live())
  {
    hide Call;
    if ops == [] || Run(cell, ops[..|ops| - 1]).cell.Live() {
      assert ops[..|ops|] == ops;
    } else {
      var before, op := ops[..|ops| - 1], ops[|ops| - 1];
      var n := Lifetime(cell, before);
      assert before[..n] == ops[..n];
      DeadCallsRefuse(cell, before);
      DeadCall(Run(cell, before), op);
    }
  }

  lemma DeadCall(t: Trace, op: Op)
    requires !t.cell.Live()
    ensures OnlyRefusals(t, Extend(t, op))
  {
  }

  /** Calls of opposite directions that both succeed may swap places. */
  lemma OppositeCallsCommute(cell: Cell, plain: bytes, cipher: bytes, frame: bytes, log: Log)
    requires cell.Live()
    requires Seal(cell, map[], plain, cipher).result.Ok? && Open(cell, log, frame).result.Ok?
    ensures var s, o := SealOp(plain, cipher), OpenOp(frame, log);
            var sealFirst, openFirst := Call(Call(cell, s).0, o), Call(Call(cell, o).0, s);
            sealFirst.0 == openFirst.0 && sealFirst.0.Live() &&
            sealFirst.1 == Call(cell, o).1 && openFirst.1 == Call(cell, s).1
  {
  }

  // ---------------------------------------------------------- the shared cell

  /** The AEAD below the transport. Its contract is all that is assumed of it;
      the body is one concrete instance that meets the contract. */
  class IdealAead {
    var log: Log

    constructor ()
      ensures log == map[]
    {
      log := map[];
    }

    method Encrypt(key: Key, nonce: nat, plain: bytes) returns (cipher: bytes)
      modifies this
      ensures |cipher| == |plain| + TAG_LENGTH
      ensures log == old(log)[(key, nonce) := Sealed(plain, cipher)]
    {
      cipher := plain + seq(TAG_LENGTH, _ => 0);
      log := log[(key, nonce) := Sealed(plain, cipher)];
    }

    method Decrypt(key: Key, nonce: nat, cipher: bytes) returns (plain: Option<bytes>)
      ensures plain == IdealOpen(log, key, nonce, cipher)
    {
      plain := if (key, nonce) in log && log[(key, nonce)].cipher == cipher then Some(log[(key, nonce)].plain)
               else None;
    }
  }

  class TransportCell {
    var cell: Cell

    constructor (state: TransportState)
      ensures cell == Cell(Some(state), false)
    {
      cell := Cell(Some(state), false);
    }

    /** seal_record: takes the state, and puts it back only at the very end. */
    method SealRecord(aead: IdealAead, plaintext: bytes) returns (r: Result<bytes, TunnelError>, ghost cipher: bytes)
      modifies this, aead
      ensures |cipher| == |plaintext| + TAG_LENGTH
      ensures Outcome(cell, aead.log, r) == Seal(old(cell), old(aead.log), plaintext, cipher)
      ensures SealAnswers(old(cell), old(aead.log), plaintext, cipher, Outcome(cell, aead.log, r))
    {
      cipher := plaintext + seq(TAG_LENGTH, _ => 0);
      if |plaintext| > MAX_PLAINTEXT_RECORD {
        return Err(PlaintextTooLarge(|plaintext|)), cipher;
      }
      if cell.poisoned {
        return Err(PoisonedCipherState), cipher;
      }
      if cell.state.None? {
        return Err(ClosedSession), cipher;
      }
      var transport := cell.state.value;
      cell := CLOSED;
      if transport.sendNonce >= LAST_NONCE {
        return Err(Noise(Exhausted)), cipher;
      }
      var ciphertext := aead.Encrypt(transport.sendKey, transport.sendNonce, plaintext);
      cipher := ciphertext;
      transport := transport.(sendNonce := transport.sendNonce + 1);
      assert |ciphertext| <= MAX_CIPHERTEXT_RECORD;  // the size check after the cipher cannot fail
      var frame := ToBe(|ciphertext|, 4);
      frame := frame + ciphertext;
      cell := Cell(Some(transport), false);
      return Ok(frame), cipher;
    }

    /** open_record. */
    method OpenRecord(aead: IdealAead, frame: bytes) returns (r: Result<bytes, TunnelError>)
      modifies this
      ensures Outcome(cell, aead.log, r) == Open(old(cell), old(aead.log), frame)
      ensures Tagged(aead.log) ==> OpenAnswers(old(cell), aead.log, frame, r)
    {
      if Tagged(aead.log) {
        OpenIsAnswered(cell, aead.log, frame);
      }
      var ciphertext := DecodeRecordFrame(frame);
      if ciphertext.Err? {
        return Err(ciphertext.error);
      }
      if cell.poisoned {
        return Err(PoisonedCipherState);
      }
      if cell.state.None? {
        return Err(ClosedSession);
      }
      var transport := cell.state.value;
      cell := CLOSED;
      if transport.recvNonce >= LAST_NONCE {
        return Err(Noise(Exhausted));
      }
      var plaintext := aead.Decrypt(transport.recvKey, transport.recvNonce, ciphertext.value);
      if plaintext.None? {
        return Err(Noise(Decrypt));
      }
      transport := transport.(recvNonce := transport.recvNonce + 1);
      if |plaintext.value| > MAX_PLAINTEXT_RECORD {
        return Err(PlaintextTooLarge(|plaintext.value|));
      }
      cell := Cell(Some(transport), false);
      return Ok(plaintext.value);
    }
  }

  class TransportSender {
    const cell: TransportCell

    constructor (cell: TransportCell)
      ensures this.cell == cell
    {
      this.cell := cell;
    }

    method EncryptRecord(aead: IdealAead, plaintext: bytes) returns (r: Result<bytes, TunnelError>, ghost cipher: bytes)
      modifies cell, aead
      ensures |cipher| == |plaintext| + TAG_LENGTH
      ensures Outcome(cell.cell, aead.log, r) == Seal(old(cell.cell), old(aead.log), plaintext, cipher)
      ensures SealAnswers(old(cell.cell), old(aead.log), plaintext, cipher, Outcome(cell.cell, aead.log, r))
    {
      r, cipher := cell.SealRecord(aead, plaintext);
    }
  }

  class TransportReceiver {
    const cell: TransportCell

    constructor (cell: TransportCell)
      ensures this.cell == cell
    {
      this.cell := cell;
    }

    method DecryptRecord(aead: IdealAead, frame: bytes) returns (r: Result<bytes, TunnelError>)
      modifies cell
      ensures Outcome(cell.cell, aead.log, r) == Open(old(cell.cell), old(aead.log), frame)
      ensures Tagged(aead.log) ==> OpenAnswers(old(cell.cell), aead.log, frame, r)
    {
      r := cell.OpenRecord(aead, frame);
    }
  }

  /** split: both halves hold the same cell. */
  method Split(cell: TransportCell) returns (sender: TransportSender, receiver: TransportReceiver)
    ensures sender.cell == cell == receiver.cell
    ensures fresh(sender) && fresh(receiver)
  {
    sender := new TransportSender(cell);
    receiver := new TransportReceiver(cell);
  }
}
