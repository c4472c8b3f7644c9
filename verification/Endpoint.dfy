/** One endpoint during its relay phase: the encrypting and the decrypting copy
    task, the cipher state they share, and the relay loop that supervises them.
    Every await point of the source is a step of its own; what the environment
    does (bytes that arrive, partial writes, time, faults) comes in as labels.
    Client and server differ only in which task decides the session's end. */
module Endpoint {
  import opened Basics
  import opened Wire
  import opened FrameReader
  import opened Transport

  datatype Reason = SocketError | CipherError(tunnel: TunnelError) | FrameError(read: ReadError)

  datatype TaskResult = Completed | Failed(reason: Reason) | Panicked | Cancelled

  datatype Pc = Reading | Writing | Flushing | Closing | Finished(result: TaskResult)

  datatype Task = EncryptTask | DecryptTask

  /** copy_encrypt. `input` is all that was read from the local application,
      `chunks` and `frames` what was sealed and the records it became,
      `written` the bytes the tunnel socket took, `rest` those still to write. */
  datatype Encrypting = Encrypting(pc: Pc, input: bytes, chunks: seq<bytes>, frames: seq<bytes>, rest: bytes,
                                   written: bytes)

  /** copy_decrypt. `consumed` is all that was read from the tunnel, `partial`
      the bytes of an unfinished record, `plains` the opened records, `output`
      the bytes the local application took, `rest` those still to write. */
  datatype Decrypting = Decrypting(pc: Pc, consumed: bytes, partial: bytes, plains: seq<bytes>, rest: bytes,
                                   output: bytes)

  datatype Exit = Running | ReturnedOk | TaskFailed(reason: Reason) | TaskPanicked | IdleTimeout | ShutdownRequested

  /** The relay loop: the one-slot activity channel, the idle deadline, which
      task handles have been joined, how the loop ended and whether the two
      abort calls after it were made. `repolled` records a poll of a handle
      that had already completed, which the runtime punishes with a panic. */
  datatype Relay = Relay(token: bool, deadline: nat, encryptJoined: bool, decryptJoined: bool,
                         repolled: bool, exit: Exit, aborting: bool)

  datatype Node = Node(side: Side, session: nat, idle: nat, cell: Cell, enc: Encrypting, dec: Decrypting,
                       relay: Relay, now: nat, lastRecord: nat)

  function Start(side: Side, session: nat, idle: nat, now: nat): Node {
    Node(side, session, idle,
         Cell(Some(TransportState(Key(session, side), Key(session, Peer(side)), 0, 0)), false),
         Encrypting(Reading, [], [], [], [], []),
         Decrypting(Reading, [], [], [], [], []),
         Relay(false, now + idle, false, false, false, Running, false),
         now, now)
  }

  datatype Label =
    | EncRead(data: bytes, cipher: bytes)
    | EncEof
    | EncWrite(count: nat)
    | EncFlush
    | EncShutdown
    | DecRead(data: bytes)
    | DecEof
    | DecWrite(count: nat)
    | DecFlush
    | DecShutdown
    | SocketFault(task: Task)
    | Panic(task: Task, underLock: bool)
    | Cancel(task: Task)
    | Poll(task: Task)
    | Activity
    | IdleFires
    | Shutdown
    | Tick(delay: nat)

  /** The task whose end ends the session: the client's downlink, the server's
      outbound direction. The loop guards the other one with a flag. */
  function Deciding(side: Side): Task {
    if side == Client then DecryptTask else EncryptTask
  }

  function PcOf(n: Node, task: Task): Pc {
    if task == EncryptTask then n.enc.pc else n.dec.pc
  }

  function Joined(n: Node, task: Task): bool {
    if task == EncryptTask then n.relay.encryptJoined else n.relay.decryptJoined
  }

  function Finish(n: Node, task: Task, result: TaskResult): Node {
    if task == EncryptTask then n.(enc := n.enc.(pc := Finished(result)))
    else n.(dec := n.dec.(pc := Finished(result)))
  }

  /** A record went through: try_send on the one-slot channel keeps at most one
      token, and does nothing once the loop has gone. */
  function Notify(n: Node): Node {
    n.(relay := n.relay.(token := n.relay.token || n.relay.exit.Running?), lastRecord := n.now)
  }

  /** How many bytes the frame reader asks for: one, then the rest of the
      header, then the rest of the payload. */
  function Want(partial: bytes): nat {
    if partial == [] then 1
    else if |partial| < 4 then 4 - |partial|
    else if |partial| < 4 + FromBe(partial[..4]) then 4 + FromBe(partial[..4]) - |partial|
    else 0
  }

  // ---------------------------------------------------------- copy_encrypt

  function EncReadStep(n: Node, log: Log, data: bytes, cipher: bytes): (Node, Log) {
    if n.enc.pc != Reading || !(1 <= |data| <= MAX_PLAINTEXT_RECORD) || |cipher| != |data| + TAG_LENGTH then (n, log)
    else
      var o := Seal(n.cell, log, data, cipher);
      var enc := n.enc.(input := n.enc.input + data);
      match o.result
      case Ok(frame) =>
        (n.(cell := o.cell,
            enc := enc.(pc := Writing, chunks := enc.chunks + [data], frames := enc.frames + [frame], rest := frame)),
         o.log)
      case Err(e) =>
        (n.(cell := o.cell, enc := enc.(pc := Finished(Failed(CipherError(e))))), o.log)
  }

  function EncStep(n: Node, l: Label): Node {
    match l
    case EncEof =>
      if n.enc.pc == Reading then n.(enc := n.enc.(pc := Closing)) else n
    case EncWrite(count) =>
      if n.enc.pc == Writing && 1 <= count <= |n.enc.rest| then
        var rest := n.enc.rest[count..];
        n.(enc := n.enc.(written := n.enc.written + n.enc.rest[..count], rest := rest,
                         pc := if rest == [] then Flushing else Writing))
      else n
    case EncFlush =>
      if n.enc.pc == Flushing then Notify(n.(enc := n.enc.(pc := Reading))) else n
    case EncShutdown =>
      if n.enc.pc == Closing then Finish(n, EncryptTask, Completed) else n
    case _ => n
  }

  // ---------------------------------------------------------- copy_decrypt

  function DecReadStep(n: Node, log: Log, data: bytes): Node {
    if n.dec.pc != Reading || !(1 <= |data| <= Want(n.dec.partial)) then n
    else
      var got := n.dec.partial + data;
      var dec := n.dec.(consumed := n.dec.consumed + data, partial := got);
      if |got| < 4 then n.(dec := dec)
      else
        var length := FromBe(got[..4]);
        if length == 0 || length > MAX_CIPHERTEXT_RECORD then
          n.(dec := dec.(pc := Finished(Failed(FrameError(InvalidLength(length))))))
        else if |got| < 4 + length then n.(dec := dec)
        else
          var o := Open(n.cell, log, got);
          match o.result
          case Ok(plain) =>
            n.(cell := o.cell,
               dec := dec.(pc := if plain == [] then Flushing else Writing,
                           partial := [], plains := dec.plains + [plain], rest := plain))
          case Err(e) =>
            n.(cell := o.cell, dec := dec.(pc := Finished(Failed(CipherError(e)))))
  }

  function DecStep(n: Node, l: Label): Node {
    match l
    case DecEof =>
      if n.dec.pc != Reading then n
      else if n.dec.partial == [] then n.(dec := n.dec.(pc := Closing))
      else Finish(n, DecryptTask, Failed(FrameError(UnexpectedEof)))
    case DecWrite(count) =>
      if n.dec.pc == Writing && 1 <= count <= |n.dec.rest| then
        var rest := n.dec.rest[count..];
        n.(dec := n.dec.(output := n.dec.output + n.dec.rest[..count], rest := rest,
                         pc := if rest == [] then Flushing else Writing))
      else n
    case DecFlush =>
      if n.dec.pc == Flushing then Notify(n.(dec := n.dec.(pc := Reading))) else n
    case DecShutdown =>
      if n.dec.pc == Closing then Finish(n, DecryptTask, Completed) else n
    case _ => n
  }

  // ------------------------------------------------- faults and cancellation

  /** abort() only asks: the runtime cancels the task at a later await point. */
  function FaultStep(n: Node, l: Label): Node {
    match l
    case SocketFault(task) =>
      if PcOf(n, task).Finished? then n else Finish(n, task, Failed(SocketError))
    case Panic(task, underLock) =>
      if PcOf(n, task).Finished? then n
      else Finish(n.(cell := n.cell.(poisoned := n.cell.poisoned || underLock)), task, Panicked)
    case Cancel(task) =>
      if !n.relay.aborting || PcOf(n, task).Finished? then n else Finish(n, task, Cancelled)
    case _ => n
  }

  // --------------------------------------------------------- the relay loop

  function Leave(r: Relay, exit: Exit): Relay {
    r.(exit := exit, aborting := true)
  }

  /** A task handle completed. An error inside the task leaves the loop and
      aborts both tasks; a task that panicked makes the loop's function return
      at once, before the abort calls. */
  function PollStep(n: Node, task: Task): Node {
    var guarded := task != Deciding(n.side);
    if !n.relay.exit.Running? || !PcOf(n, task).Finished? || (guarded && Joined(n, task)) then n
    else
      var r0 := n.relay.(repolled := n.relay.repolled || Joined(n, task));
      var r := if task == EncryptTask then r0.(encryptJoined := true) else r0.(decryptJoined := true);
      match PcOf(n, task).result
      case Completed => n.(relay := if guarded then r else Leave(r, ReturnedOk))
      case Failed(reason) => n.(relay := Leave(r, TaskFailed(reason)))
      case Panicked => n.(relay := r.(exit := TaskPanicked))
      case Cancelled => n.(relay := r.(exit := TaskPanicked))
  }

  function RelayStep(n: Node, l: Label): Node {
    if !n.relay.exit.Running? then n
    else
      match l
      case Activity =>
        if n.relay.token then n.(relay := n.relay.(token := false, deadline := n.now + n.idle)) else n
      case IdleFires =>
        if n.now >= n.relay.deadline then n.(relay := Leave(n.relay, IdleTimeout)) else n
      case Shutdown =>
        n.(relay := Leave(n.relay, ShutdownRequested))
      case _ => n
  }

  /** One step of the endpoint; a label that is not enabled changes nothing. */
  function Step(n: Node, log: Log, l: Label): (Node, Log) {
    match l
    case EncRead(data, cipher) => EncReadStep(n, log, data, cipher)
    case EncEof => (EncStep(n, l), log)
    case EncWrite(_) => (EncStep(n, l), log)
    case EncFlush => (EncStep(n, l), log)
    case EncShutdown => (EncStep(n, l), log)
    case DecRead(data) => (DecReadStep(n, log, data), log)
    case DecEof => (DecStep(n, l), log)
    case DecWrite(_) => (DecStep(n, l), log)
    case DecFlush => (DecStep(n, l), log)
    case DecShutdown => (DecStep(n, l), log)
    case SocketFault(_) => (FaultStep(n, l), log)
    case Panic(_, _) => (FaultStep(n, l), log)
    case Cancel(_) => (FaultStep(n, l), log)
    case Poll(task) => (PollStep(n, task), log)
    case Tick(delay) => (n.(now := n.now + delay), log)
    case _ => (RelayStep(n, l), log)
  }
}
