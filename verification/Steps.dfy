/** What each step of an endpoint does when it is possible, for every amount of
    data, and that a step that is not possible does nothing. */
module Steps {
  import opened Basics
  import opened Wire
  import opened FrameReader
  import opened Transport
  import opened Endpoint

  // ---------------------------------------------------------- copy_encrypt

  /** A read of any legal size is sealed as one record at the next nonce and put
      in line for writing; on a state that is not ready it ends the task with
      the refusal, and nothing is encrypted. */
  lemma ReadIsSealed(n: Node, log: Log, data: bytes, cipher: bytes)
    requires n.enc.pc == Reading && 1 <= |data| <= MAX_PLAINTEXT_RECORD && |cipher| == |data| + TAG_LENGTH
    ensures var (m, log') := Step(n, log, EncRead(data, cipher));
            && m == n.(enc := m.enc, cell := m.cell)
            && m.enc.input == n.enc.input + data && m.enc.written == n.enc.written
            && (if Ready(n.cell, true) then
                  var t := n.cell.state.value;
                  && m.enc.pc == Writing && m.enc.chunks == n.enc.chunks + [data]
                  && m.enc.frames == n.enc.frames + [Frame(4, cipher)] && m.enc.rest == Frame(4, cipher)
                  && m.cell == Cell(Some(t.(sendNonce := t.sendNonce + 1)), false)
                  && log' == log[(t.sendKey, t.sendNonce) := Sealed(data, cipher)]
                else
                  && m.enc.pc == Finished(Failed(CipherError(Refusal(n.cell))))
                  && m.enc.chunks == n.enc.chunks && m.enc.frames == n.enc.frames && m.enc.rest == n.enc.rest
                  && m.cell == (if n.cell.Live() then CLOSED else n.cell) && log' == log)
  {
    SealIsAnswered(n.cell, log, data, cipher);
    hide Seal;
  }

  /** A write of any size moves that much, in order, from what is left to what
      was written; the record is flushed only when nothing is left of it. */
  lemma WriteMoves(n: Node, log: Log, count: nat)
    requires n.enc.pc == Writing && 1 <= count <= |n.enc.rest|
    ensures var (m, log') := Step(n, log, EncWrite(count));
            && log' == log && m == n.(enc := m.enc)
            && m.enc.written + m.enc.rest == n.enc.written + n.enc.rest && |m.enc.rest| == |n.enc.rest| - count
            && m.enc.pc == (if m.enc.rest == [] then Flushing else Writing)
            && m.enc.input == n.enc.input && m.enc.chunks == n.enc.chunks && m.enc.frames == n.enc.frames
  {
    assert n.enc.rest[..count] + n.enc.rest[count..] == n.enc.rest;
  }

  /** Flushing counts the record, at this moment, and goes back to reading; the
      end of the input closes the writer, and that completes the task. */
  lemma EncryptGoesOn(n: Node, log: Log)
    ensures n.enc.pc == Flushing ==>
              Step(n, log, EncFlush) ==
              (n.(enc := n.enc.(pc := Reading), lastRecord := n.now,
                  relay := n.relay.(token := n.relay.token || n.relay.exit.Running?)), log)
    ensures n.enc.pc == Reading ==> Step(n, log, EncEof) == (n.(enc := n.enc.(pc := Closing)), log)
    ensures n.enc.pc == Closing ==> Step(n, log, EncShutdown) == (n.(enc := n.enc.(pc := Finished(Completed))), log)
  {
  }

  // ---------------------------------------------------------- copy_decrypt

  /** A read of any size up to what is wanted is taken. Inside a record it is
      kept; an illegal length ends the task with that length; a whole record is
      opened, and its plaintext is put in line or its refusal ends the task. */
  lemma ReadIsTaken(n: Node, log: Log, data: bytes)
    requires n.dec.pc == Reading && 1 <= |data| <= Want(n.dec.partial)
    ensures var (m, log') := Step(n, log, DecRead(data));
            var got := n.dec.partial + data;
            && log' == log && m == n.(dec := m.dec, cell := m.cell)
            && m.dec.consumed == n.dec.consumed + data && m.dec.output == n.dec.output
            && (|got| < 4 || (1 <= FromBe(got[..4]) <= MAX_CIPHERTEXT_RECORD && |got| < 4 + FromBe(got[..4])) ==>
                  m == n.(dec := n.dec.(consumed := n.dec.consumed + data, partial := got)))
            && (|got| >= 4 && !(1 <= FromBe(got[..4]) <= MAX_CIPHERTEXT_RECORD) ==>
                  m.dec.pc == Finished(Failed(FrameError(InvalidLength(FromBe(got[..4]))))) &&
                  m.dec.plains == n.dec.plains && m.cell == n.cell)
            && (|got| >= 4 && 1 <= FromBe(got[..4]) <= MAX_CIPHERTEXT_RECORD && |got| >= 4 + FromBe(got[..4]) ==>
                  var o := Open(n.cell, log, got);
                  && m.cell == o.cell
                  && (forall plain :: o.result == Ok(plain) ==>
                        && m.dec.plains == n.dec.plains + [plain] && m.dec.rest == plain && m.dec.partial == []
                        && m.dec.pc == if plain == [] then Flushing else Writing)
                  && (forall e :: o.result == Err(e) ==>
                        m.dec.pc == Finished(Failed(CipherError(e))) && m.dec.plains == n.dec.plains))
  {
    hide Open, FromBe;
  }

  /** What the reader asks for: one byte, then the rest of the header, then the
      rest of the payload, of any record it can be in. */
  lemma ReaderAsks(payload: bytes, k: nat)
    requires Payload(payload) && k < 4 + |payload|
    ensures k + Want(Frame(4, payload)[..k]) == if k == 0 then 1 else if k < 4 then 4 else 4 + |payload|
  {
    HeaderWidths();
    FromToBe(|payload|, 4);
    if k >= 4 {
      assert Frame(4, payload)[..k][..4] == ToBe(|payload|, 4);
    }
    hide FromBe, ToBe;
  }

  lemma OutputMoves(n: Node, log: Log, count: nat)
    requires n.dec.pc == Writing && 1 <= count <= |n.dec.rest|
    ensures var (m, log') := Step(n, log, DecWrite(count));
            && log' == log && m == n.(dec := m.dec)
            && m.dec.output + m.dec.rest == n.dec.output + n.dec.rest && |m.dec.rest| == |n.dec.rest| - count
            && m.dec.pc == (if m.dec.rest == [] then Flushing else Writing)
            && m.dec.plains == n.dec.plains && m.dec.consumed == n.dec.consumed && m.dec.partial == n.dec.partial
  {
    assert n.dec.rest[..count] + n.dec.rest[count..] == n.dec.rest;
  }

  lemma DecryptGoesOn(n: Node, log: Log)
    ensures n.dec.pc == Flushing ==>
              Step(n, log, DecFlush) ==
              (n.(dec := n.dec.(pc := Reading), lastRecord := n.now,
                  relay := n.relay.(token := n.relay.token || n.relay.exit.Running?)), log)
    ensures n.dec.pc == Reading ==>
              Step(n, log, DecEof) ==
              (n.(dec := n.dec.(pc := if n.dec.partial == [] then Closing
                                      else Finished(Failed(FrameError(UnexpectedEof))))), log)
    ensures n.dec.pc == Closing ==> Step(n, log, DecShutdown) == (n.(dec := n.dec.(pc := Finished(Completed))), log)
  {
  }

  // ------------------------------------------------- faults and cancellation

  /** A fault or a panic ends an unfinished task and no other; a panic under the
      lock poisons the shared state for both; only an aborted task is cancelled. */
  lemma FaultsEndOneTask(n: Node, log: Log, task: Task, underLock: bool)
    requires !PcOf(n, task).Finished?
    ensures var other := if task == EncryptTask then DecryptTask else EncryptTask;
            var fault, panic := Step(n, log, SocketFault(task)), Step(n, log, Panic(task, underLock));
            var cancel := Step(n, log, Cancel(task));
            && fault == (Ending(n, task, Failed(SocketError)), log)
            && panic == (Ending(n.(cell := n.cell.(poisoned := n.cell.poisoned || underLock)), task, Panicked), log)
            && cancel == (if n.relay.aborting then Ending(n, task, Cancelled) else n, log)
            && PcOf(fault.0, other) == PcOf(panic.0, other) == PcOf(cancel.0, other) == PcOf(n, other)
  {
  }

  /** The node with one task at its end and nothing else changed. */
  function Ending(n: Node, task: Task, result: TaskResult): Node {
    match task
    case EncryptTask => n.(enc := n.enc.(pc := Finished(result)))
    case DecryptTask => n.(dec := n.dec.(pc := Finished(result)))
  }

  /** Finished tasks take no step, and time only passes. */
  lemma NothingElseMoves(n: Node, log: Log, l: Label)
    ensures n.enc.pc.Finished? ==> Step(n, log, l).0.enc == n.enc
    ensures n.dec.pc.Finished? ==> Step(n, log, l).0.dec == n.dec
    ensures l.Tick? ==> Step(n, log, l) == (n.(now := n.now + l.delay), log)
    ensures !l.Tick? ==> Step(n, log, l).0.now == n.now
  {
  }
}
