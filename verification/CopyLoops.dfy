/** The two copy loops as the binaries write them. Between any two of their own
    operations the other task of the same endpoint may use the shared cipher
    state, and the rest of the world may encrypt: Yield stands for that. */
module CopyLoops {
  import opened Basics
  import opened Wire
  import opened FrameReader
  import opened Transport
  import opened Endpoint

  /** The sending side of a socket; `failed` remembers that an operation on it
      has reported an error. */
  class ByteSink {
    var written: bytes
    var closed: bool
    var failed: bool

    constructor ()
      ensures written == [] && !closed && !failed
    {
      written, closed, failed := [], false, false;
    }

    /** write_all: on an error any prefix may have gone out. */
    method WriteAll(data: bytes) returns (ok: bool)
      modifies this
      ensures old(written) <= written <= old(written) + data
      ensures ok ==> written == old(written) + data
      ensures closed == old(closed) && failed == (old(failed) || !ok)
    {
      if * {
        var n: nat :| n <= |data|;
        written := written + data[..n];
        failed := true;
        return false;
      }
      written := written + data;
      return true;
    }

    method Flush() returns (ok: bool)
      modifies this
      ensures written == old(written) && closed == old(closed) && failed == (old(failed) || !ok)
    {
      ok := *;
      failed := failed || !ok;
    }

    method Shutdown() returns (ok: bool)
      modifies this
      ensures written == old(written) && failed == (old(failed) || !ok)
      ensures ok ==> closed
    {
      ok := *;
      closed := closed || ok;
      failed := failed || !ok;
    }
  }

  /** A 64-bit counter and the one-slot activity channel. */
  class Telemetry {
    var moved: u64
    var token: bool

    constructor ()
      ensures moved == 0 && !token
    {
      moved, token := 0, false;
    }

    method Add(n: nat)
      modifies this
      ensures moved == FetchAdd(old(moved), n) && token == old(token)
    {
      moved := FetchAdd(moved, n);
    }

    method TrySend()
      modifies this
      ensures token && moved == old(moved)
    {
      token := true;
    }
  }

  // ------------------------------------------------------------ interference

  /** What a task may rely on across a pause: its own nonce stands still as
      long as the state exists, and what its key encrypted stays. */
  ghost predicate Rely(sending: bool, key: Key, a: Cell, b: Cell, logA: Log, logB: Log) {
    && (b.state.Some? ==> a.state.Some? && Nonce(sending, b.state.value) == Nonce(sending, a.state.value))
    && Keeps(key, logA, logB)
  }

  /** The keys and the nonce one half looks at. */
  function Nonce(sending: bool, t: TransportState): (Key, Key, nat) {
    (t.sendKey, t.recvKey, if sending then t.sendNonce else t.recvNonce)
  }

  ghost predicate Keeps(key: Key, a: Log, b: Log) {
    forall i: nat :: (key, i) in a ==> (key, i) in b && b[(key, i)] == a[(key, i)]
  }

  /** Each half's own operation is something the other half may rely on, so the
      two loops do not disturb each other; pauses add up. */
  lemma HalvesDoNotDisturb(cell: Cell, log: Log, plain: bytes, cipher: bytes, frame: bytes)
    requires cell.state.Some? && cell.state.value.sendKey != cell.state.value.recvKey
    ensures var sealed := Seal(cell, log, plain, cipher);
            Rely(false, cell.state.value.recvKey, cell, sealed.cell, log, sealed.log)
    ensures var o := Open(cell, log, frame);
            Rely(true, cell.state.value.sendKey, cell, o.cell, log, o.log)
  {
  }

  lemma PausesAddUp(sending: bool, key: Key, a: Cell, b: Cell, c: Cell, logA: Log, logB: Log, logC: Log)
    requires Rely(sending, key, a, b, logA, logB) && Rely(sending, key, b, c, logB, logC)
    ensures Rely(sending, key, a, c, logA, logC)
  {
  }

  /** What may happen while one task pauses: the other half seals or opens, a
      task panics under the lock, somebody elsewhere encrypts at a nonce not
      used before. */
  datatype Disturbance =
    | OtherHalf(plain: bytes, cipher: bytes, frame: bytes)
    | Poison
    | Elsewhere(key: Key, nonce: nat, made: Sealed)

  function Disturb(sending: bool, cell: Cell, log: Log, d: Disturbance): (Cell, Log) {
    match d
    case OtherHalf(plain, cipher, frame) =>
      var o := if sending then Open(cell, log, frame) else Seal(cell, log, plain, cipher);
      (o.cell, o.log)
    case Poison => (cell.(poisoned := true), log)
    case Elsewhere(key, nonce, made) => (cell, if (key, nonce) in log then log else log[(key, nonce) := made])
  }

  function DisturbAll(sending: bool, cell: Cell, log: Log, ds: seq<Disturbance>): (Cell, Log) {
    if ds == [] then (cell, log)
    else
      var (c, l) := DisturbAll(sending, cell, log, ds[..|ds| - 1]);
      Disturb(sending, c, l, ds[|ds| - 1])
  }

  lemma OneDisturbance(sending: bool, key: Key, cell: Cell, log: Log, d: Disturbance)
    requires cell.state.Some? ==>
               var t := cell.state.value;
               t.sendKey != t.recvKey && key == if sending then t.sendKey else t.recvKey
    ensures var (c, l) := Disturb(sending, cell, log, d); Rely(sending, key, cell, c, log, l)
  {
    if d.OtherHalf? && cell.state.Some? {
      HalvesDoNotDisturb(cell, log, d.plain, d.cipher, d.frame);
    }
  }

  /** Any number of disturbances is one pause: this is what Yield may do. */
  lemma {:induction false} PausesMayBeLong(sending: bool, key: Key, cell: Cell, log: Log, ds: seq<Disturbance>)
    requires cell.state.Some? ==>
               var t := cell.state.value;
               t.sendKey != t.recvKey && key == if sending then t.sendKey else t.recvKey
    ensures var (c, l) := DisturbAll(sending, cell, log, ds); Rely(sending, key, cell, c, log, l)
  {
    if ds != [] {
      var before := ds[..|ds| - 1];
      PausesMayBeLong(sending, key, cell, log, before);
      var (c, l) := DisturbAll(sending, cell, log, before);
      OneDisturbance(sending, key, c, l, ds[|ds| - 1]);
      var (c', l') := Disturb(sending, c, l, ds[|ds| - 1]);
      PausesAddUp(sending, key, cell, c, c', log, l, l');
    }
  }

  method Yield(shared: TransportCell, aead: IdealAead, ghost sending: bool, ghost key: Key)
    modifies shared, aead
    ensures Rely(sending, key, old(shared.cell), shared.cell, old(aead.log), aead.log)
  {
    if * {
      shared.cell := CLOSED;
    }
  }

  // ------------------------------------------------- the records of a transfer

  predicate RecordAt(log: Log, key: Key, nonce: nat, chunk: bytes, frame: bytes) {
    (key, nonce) in log && log[(key, nonce)].plain == chunk && frame == Frame(4, log[(key, nonce)].cipher)
  }

  /** Record i of a transfer: chunk i sealed under the key at nonce first + i. */
  predicate SealedAs(log: Log, key: Key, first: nat, chunks: seq<bytes>, frames: seq<bytes>) {
    && |frames| == |chunks|
    && forall i :: 0 <= i < |chunks| ==> RecordAt(log, key, first + i, chunks[i], frames[i])
  }

  lemma SealedAsStays(a: Log, b: Log, key: Key, first: nat, chunks: seq<bytes>, frames: seq<bytes>)
    requires SealedAs(a, key, first, chunks, frames) && Keeps(key, a, b)
    ensures SealedAs(b, key, first, chunks, frames)
  {
    forall i | 0 <= i < |chunks|
      ensures RecordAt(b, key, first + i, chunks[i], frames[i])
    {
      assert RecordAt(a, key, first + i, chunks[i], frames[i]);
    }
  }

  /** Sealing at the next nonce extends the transfer and disturbs nothing. */
  lemma SealedAsNext(log: Log, key: Key, first: nat, chunks: seq<bytes>, frames: seq<bytes>, chunk: bytes,
                     cipher: bytes)
    requires SealedAs(log, key, first, chunks, frames)
    ensures SealedAs(log[(key, first + |chunks|) := Sealed(chunk, cipher)], key, first, chunks + [chunk],
                     frames + [Frame(4, cipher)])
  {
    var log' := log[(key, first + |chunks|) := Sealed(chunk, cipher)];
    forall i | 0 <= i < |chunks| + 1
      ensures RecordAt(log', key, first + i, (chunks + [chunk])[i], (frames + [Frame(4, cipher)])[i])
    {
      if i < |chunks| {
        assert RecordAt(log, key, first + i, chunks[i], frames[i]);
      }
    }
  }

  lemma SealedAsOpened(log: Log, key: Key, first: nat, chunks: seq<bytes>, frames: seq<bytes>, chunk: bytes,
                       frame: bytes)
    requires SealedAs(log, key, first, chunks, frames) && RecordAt(log, key, first + |chunks|, chunk, frame)
    ensures SealedAs(log, key, first, chunks + [chunk], frames + [frame])
  {
  }

  /** While it exists, the state works with this key and stands at this nonce. */
  predicate StandsAt(cell: Cell, sending: bool, key: Key, nonce: nat) {
    cell.state.Some? ==>
      if sending then cell.state.value.sendKey == key && cell.state.value.sendNonce == nonce
      else cell.state.value.recvKey == key && cell.state.value.recvNonce == nonce
  }

  /** A frame that opened is the record in the log, byte for byte. */
  lemma OpenedFrame(cell: Cell, log: Log, frame: bytes)
    requires Open(cell, log, frame).result.Ok?
    ensures cell.state.Some? &&
            RecordAt(log, cell.state.value.recvKey, cell.state.value.recvNonce, Open(cell, log, frame).result.value,
                     frame)
  {
    HeaderWidths();
    DecodeExact(frame, 4, MAX_CIPHERTEXT_RECORD, false, DecodeRecordFrame(frame).value);
  }

  /** Writer, reader and decoder agree: every frame that sealing emits is found
      whole by the reader at the head of any stream, and accepted by the decoder. */
  lemma SealedFramesAreReadable(cell: Cell, log: Log, plain: bytes, cipher: bytes, rest: bytes)
    requires |cipher| == |plain| + TAG_LENGTH && Seal(cell, log, plain, cipher).result.Ok?
    ensures var frame := Seal(cell, log, plain, cipher).result.value;
            && ParseRecord(frame + rest) == Ok(Some(frame))
            && DecodeRecordFrame(frame) == Ok(cipher)
            && ParseAll(frame + rest).frames == [frame] + ParseAll(rest).frames
  {
    RecordExact(Frame(4, cipher) + rest, cipher);
    HeaderWidths();
    DecodeExact(Frame(4, cipher), 4, MAX_CIPHERTEXT_RECORD, false, cipher);
    ParseFirst(cipher, rest);
  }

  /** A pause of one task: its transfer so far and its nonce stay as they were. */
  method Pause(shared: TransportCell, aead: IdealAead, ghost sending: bool, ghost key: Key, ghost first: nat,
               ghost parts: seq<bytes>, ghost frames: seq<bytes>)
    requires SealedAs(aead.log, key, first, parts, frames) && StandsAt(shared.cell, sending, key, first + |parts|)
    modifies shared, aead
    ensures SealedAs(aead.log, key, first, parts, frames) && StandsAt(shared.cell, sending, key, first + |parts|)
  {
    ghost var before := aead.log;
    Yield(shared, aead, sending, key);
    SealedAsStays(before, aead.log, key, first, parts, frames);
  }

  /** write_all and flush, both of which may pause. */
  method Deliver(write: ByteSink, data: bytes, shared: TransportCell, aead: IdealAead,
                 ghost sending: bool, ghost key: Key, ghost first: nat, ghost parts: seq<bytes>,
                 ghost frames: seq<bytes>)
    returns (ok: bool)
    requires SealedAs(aead.log, key, first, parts, frames) && StandsAt(shared.cell, sending, key, first + |parts|)
    modifies write, shared, aead
    ensures SealedAs(aead.log, key, first, parts, frames) && StandsAt(shared.cell, sending, key, first + |parts|)
    ensures old(write.written) <= write.written <= old(write.written) + data
    ensures ok ==> write.written == old(write.written) + data
    ensures write.failed == (old(write.failed) || !ok)
  {
    ok := write.WriteAll(data);
    Pause(shared, aead, sending, key, first, parts, frames);
    if ok {
      ok := write.Flush();
      Pause(shared, aead, sending, key, first, parts, frames);
    }
  }

  // ------------------------------------------------------------ copy_encrypt

  /** What a copy loop may get from a cipher state that is of no more use. */
  predicate CellError(e: TunnelError) {
    e == PoisonedCipherState || e == ClosedSession || e == Noise(Exhausted)
  }

  method SealNext(sender: TransportSender, aead: IdealAead, chunk: bytes,
                  ghost key: Key, ghost first: nat, ghost chunks: seq<bytes>, ghost frames: seq<bytes>)
    returns (r: Result<bytes, TunnelError>)
    requires |chunk| <= MAX_PLAINTEXT_RECORD
    requires SealedAs(aead.log, key, first, chunks, frames) && StandsAt(sender.cell.cell, true, key, first + |chunks|)
    modifies sender.cell, aead
    ensures r.Ok? ==> SealedAs(aead.log, key, first, chunks + [chunk], frames + [r.value])
    ensures r.Ok? ==> StandsAt(sender.cell.cell, true, key, first + |chunks| + 1)
    ensures r.Err? ==> SealedAs(aead.log, key, first, chunks, frames)
    ensures r.Err? ==> !sender.cell.cell.Live() && CellError(r.error)
  {
    ghost var before := aead.log;
    ghost var cipher;
    r, cipher := sender.EncryptRecord(aead, chunk);
    SealedAsNext(before, key, first, chunks, frames, chunk, cipher);
  }

  /** One read of application bytes into the copy buffer. */
  method ReadChunk(read: ByteStream, buffer: array<byte>) returns (r: Result<bytes, ReadError>)
    requires buffer.Length > 0
    modifies read, buffer
    ensures r.Err? ==> read.pending == old(read.pending) && read.failed
    ensures r.Ok? ==> read.failed == old(read.failed)
    ensures r.Ok? ==> old(read.pending) == r.value + read.pending && |r.value| <= buffer.Length
    ensures r.Ok? ==> (r.value == [] <==> old(read.pending) == [])
  {
    var got := read.Read(buffer, 0, buffer.Length);
    if got.Err? {
      return Err(got.error);
    }
    assert buffer[..got.value] == old(read.pending)[..got.value];
    return Ok(buffer[..got.value]);
  }

  /** Why copy_encrypt ended: with a socket error only if an operation on one of
      the sockets failed, with a cipher error only on a state of no more use. */
  predicate EncryptCause(r: TaskResult, readFailed: bool, writeFailed: bool, cell: Cell) {
    match r
    case Completed => true
    case Failed(SocketError) => readFailed || writeFailed
    case Failed(CipherError(e)) => !cell.Live() && CellError(e)
    case _ => false
  }

  /** One round of copy_encrypt: at most one more chunk is taken and sealed. No
      result means the record went out whole and the loop goes on. */
  method EncryptRound(read: ByteStream, buffer: array<byte>, write: ByteSink, sender: TransportSender, aead: IdealAead,
                      stats: Telemetry, ghost key: Key, ghost first: nat, ghost chunks: seq<bytes>,
                      ghost frames: seq<bytes>)
    returns (r: Option<TaskResult>, ghost chunk: seq<bytes>, ghost frame: seq<bytes>)
    requires 0 < buffer.Length <= MAX_PLAINTEXT_RECORD
    requires SealedAs(aead.log, key, first, chunks, frames) && StandsAt(sender.cell.cell, true, key, first + |chunks|)
    modifies read, buffer, write, sender.cell, aead, stats
    ensures |frame| == |chunk| <= 1 && SealedAs(aead.log, key, first, chunks + chunk, frames + frame)
    ensures r.Some? && r.value.Failed? && r.value.reason.CipherError? ==> chunk == []
    ensures !(r.Some? && r.value.Failed? && r.value.reason.CipherError?) ==>
              old(read.pending) == Concat(chunk) + read.pending
    ensures old(write.written) <= write.written <= old(write.written) + Concat(frame)
    ensures r.None? ==>
              StandsAt(sender.cell.cell, true, key, first + |chunks + chunk|) && |read.pending| < |old(read.pending)| &&
              write.written == old(write.written) + Concat(frame) &&
              stats.moved == FetchAdd(old(stats.moved), |Concat(chunk)|) && stats.token
    ensures r == Some(Completed) ==>
              chunk == [] && read.pending == [] && write.closed && write.written == old(write.written)
    ensures r.Some? ==> stats.moved == old(stats.moved) && stats.token == old(stats.token)
    ensures r.Some? ==> EncryptCause(r.value, read.failed, write.failed, sender.cell.cell)
  {
    chunk, frame := [], [];
    assert chunks + [] == chunks && frames + [] == frames;
    var got := ReadChunk(read, buffer);
    Pause(sender.cell, aead, true, key, first, chunks, frames);
    if got.Err? {
      return Some(Failed(SocketError)), chunk, frame;
    }
    if got.value == [] {
      var ok := write.Shutdown();
      return Some(if ok then Completed else Failed(SocketError)), chunk, frame;
    }
    var record := SealNext(sender, aead, got.value, key, first, chunks, frames);
    if record.Err? {
      return Some(Failed(CipherError(record.error))), chunk, frame;
    }
    chunk, frame := [got.value], [record.value];
    ConcatOne(got.value);
    ConcatOne(record.value);
    var sent := Deliver(write, record.value, sender.cell, aead, true, key, first, chunks + chunk, frames + frame);
    if !sent {
      return Some(Failed(SocketError)), chunk, frame;
    }
    stats.Add(|got.value|);
    stats.TrySend();
    return None, chunk, frame;
  }

  /** copy_encrypt: whatever the read sizes and the interference, the bytes
      taken from the application are exactly the sealed chunks (plus, after a
      cipher error, the one chunk that could not be sealed); the tunnel gets a
      prefix of the records, and all of them when the loop returns Ok. */
  method CopyEncrypt(read: ByteStream, write: ByteSink, sender: TransportSender, aead: IdealAead, stats: Telemetry,
                     ghost key: Key, ghost first: nat)
    returns (r: TaskResult, ghost chunks: seq<bytes>, ghost frames: seq<bytes>)
    requires StandsAt(sender.cell.cell, true, key, first)
    modifies read, write, sender.cell, aead, stats
    ensures SealedAs(aead.log, key, first, chunks, frames)
    ensures Concat(chunks) <= old(read.pending)
    ensures !(r.Failed? && r.reason.CipherError?) ==> old(read.pending) == Concat(chunks) + read.pending
    ensures old(write.written) <= write.written <= old(write.written) + Concat(frames)
    ensures r.Completed? ==>
              read.pending == [] && write.closed &&
              Tally(old(write.written), frames, chunks, old(stats.moved), write.written, stats.moved, stats.token)
    ensures EncryptCause(r, read.failed, write.failed, sender.cell.cell)
    ensures WholeOnly(chunks, old(stats.moved), stats.moved)
  {
    chunks, frames := [], [];
    hide SealedAs, StandsAt, Tally;
    NothingYet(aead.log, key, first, write.written, stats.moved, stats.token);
    var buffer := new byte[MAX_PLAINTEXT_RECORD];
    while true
      invariant SealedAs(aead.log, key, first, chunks, frames) &&
                StandsAt(sender.cell.cell, true, key, first + |chunks|)
      invariant old(read.pending) == Concat(chunks) + read.pending
      invariant Tally(old(write.written), frames, chunks, old(stats.moved), write.written, stats.moved, stats.token)
      decreases |read.pending|
    {
      ghost var chunk, frame;
      ghost var pending, written, moved, token := read.pending, write.written, stats.moved, stats.token;
      var result;
      result, chunk, frame := EncryptRound(read, buffer, write, sender, aead, stats, key, first, chunks, frames);
      TallyMore(old(write.written), frames, chunks, old(stats.moved), written, moved, token, frame, chunk,
                write.written, stats.moved, stats.token);
      if pending == Concat(chunk) + read.pending {
        TakenMore(old(read.pending), chunks, chunk, pending, read.pending);
      } else {
        assert chunks + chunk == chunks;
      }
      if chunk == [] {
        assert chunks + chunk == chunks && frames + frame == frames;
      }
      if result.Some? {
        CountedWhole(chunks, chunk, old(write.written), frames, old(stats.moved), written, moved, token);
      }
      chunks, frames := chunks + chunk, frames + frame;
      if result.Some? {
        return result.value, chunks, frames;
      }
    }
  }

  // ------------------------------------------------------------ copy_decrypt

  method OpenNext(receiver: TransportReceiver, aead: IdealAead, frame: bytes,
                  ghost key: Key, ghost first: nat, ghost plains: seq<bytes>, ghost frames: seq<bytes>)
    returns (r: Result<bytes, TunnelError>)
    requires SealedAs(aead.log, key, first, plains, frames) &&
             StandsAt(receiver.cell.cell, false, key, first + |plains|)
    modifies receiver.cell
    ensures r.Ok? ==> SealedAs(aead.log, key, first, plains + [r.value], frames + [frame])
    ensures r.Ok? ==> StandsAt(receiver.cell.cell, false, key, first + |plains| + 1)
    ensures r.Err? && DecodeRecordFrame(frame).Ok? ==>
              !receiver.cell.cell.Live() && OpenCause(r.error, aead.log, key, first + |plains|, frame)
  {
    ghost var before := receiver.cell.cell;
    r := receiver.DecryptRecord(aead, frame);
    if r.Ok? {
      OpenedFrame(before, aead.log, frame);
      SealedAsOpened(aead.log, key, first, plains, frames, r.value, frame);
    }
  }

  /** Why opening a whole frame failed: the state is of no more use, or the frame
      is not the peer's record at this nonce (or an impossibly large one). */
  predicate OpenCause(e: TunnelError, log: Log, key: Key, nonce: nat, frame: bytes) {
    var decoded := DecodeRecordFrame(frame);
    || CellError(e)
    || (e == Noise(Decrypt) && decoded.Ok? && IdealOpen(log, key, nonce, decoded.value) == None)
    || (e.PlaintextTooLarge? && decoded.Ok? && IdealOpen(log, key, nonce, decoded.value).Some? &&
        |IdealOpen(log, key, nonce, decoded.value).value| == e.size > MAX_PLAINTEXT_RECORD)
  }

  /** Why one round of copy_decrypt ended the task, given what it found. */
  predicate RoundCause(r: TaskResult, readFailed: bool, writeFailed: bool, cell: Cell, log: Log, key: Key, nonce: nat,
                       found: Result<Option<bytes>, ReadError>)
  {
    match r
    case Completed => true
    case Failed(SocketError) => writeFailed
    case Failed(FrameError(e)) => if e == Io then readFailed else found == Err(e)
    case Failed(CipherError(e)) =>
      !cell.Live() && found.Ok? && found.value.Some? && OpenCause(e, log, key, nonce, found.value.value)
    case _ => false
  }

  /** Why copy_decrypt ended, having read `frames` so far from `stream`. */
  predicate DecryptCause(r: TaskResult, readFailed: bool, writeFailed: bool, cell: Cell, log: Log, key: Key, nonce: nat,
                         frames: seq<bytes>, stream: bytes)
  {
    match r
    case Completed => true
    case Failed(SocketError) => writeFailed
    case Failed(FrameError(e)) => if e == Io then readFailed else ParseAll(stream) == Parsed(frames, Broken(e))
    case Failed(CipherError(e)) =>
      !cell.Live() && |frames| < |ParseAll(stream).frames| && frames == ParseAll(stream).frames[..|frames|] &&
      OpenCause(e, log, key, nonce, ParseAll(stream).frames[|frames|])
    case _ => false
  }

  /** One round of copy_decrypt. */
  method DecryptRound(read: ByteStream, write: ByteSink, receiver: TransportReceiver, aead: IdealAead, stats: Telemetry,
                      ghost key: Key, ghost first: nat, ghost plains: seq<bytes>, ghost frames: seq<bytes>)
    returns (r: Option<TaskResult>, ghost plain: seq<bytes>, ghost frame: seq<bytes>)
    requires SealedAs(aead.log, key, first, plains, frames) &&
             StandsAt(receiver.cell.cell, false, key, first + |plains|)
    modifies read, write, receiver.cell, aead, stats
    ensures |frame| == |plain| <= 1 && SealedAs(aead.log, key, first, plains + plain, frames + frame)
    ensures frame == [] || (|frame| == 1 && frame != [] && ParseRecord(old(read.pending)) == Ok(Some(frame[0])) &&
                            read.pending == old(read.pending)[|frame[0]|..])
    ensures old(write.written) <= write.written <= old(write.written) + Concat(plain)
    ensures r.None? ==>
              |frame| == 1 && StandsAt(receiver.cell.cell, false, key, first + |plains + plain|) &&
              write.written == old(write.written) + Concat(plain) &&
              stats.moved == FetchAdd(old(stats.moved), |Concat(plain)|) && stats.token
    ensures r == Some(Completed) ==>
              frame == [] && plain == [] && ParseRecord(old(read.pending)) == Ok(None) && write.closed &&
              write.written == old(write.written)
    ensures r.Some? ==> stats.moved == old(stats.moved) && stats.token == old(stats.token)
    ensures r.Some? ==>
              RoundCause(r.value, read.failed, write.failed, receiver.cell.cell, aead.log, key, first + |plains|,
                         ParseRecord(old(read.pending)))
    ensures r.Some? && r.value.Failed? && !r.value.reason.SocketError? ==> frame == [] && plain == []
  {
    plain, frame := [], [];
    assert plains + [] == plains && frames + [] == frames;
    RecordExact(read.pending, []);
    var got := ReadRecordFrame(read);
    Pause(receiver.cell, aead, false, key, first, plains, frames);
    if got.Err? {
      return Some(Failed(FrameError(got.error))), plain, frame;
    }
    if got.value.None? {
      var ok := write.Shutdown();
      return Some(if ok then Completed else Failed(SocketError)), plain, frame;
    }
    var record := got.value.value;
    var text := OpenNext(receiver, aead, record, key, first, plains, frames);
    if text.Err? {
      hide OpenCause, ParseRecord;
      return Some(Failed(CipherError(text.error))), plain, frame;
    }
    plain, frame := [text.value], [record];
    ConcatOne(text.value);
    var sent := Deliver(write, text.value, receiver.cell, aead, false, key, first, plains + plain, frames + frame);
    if !sent {
      return Some(Failed(SocketError)), plain, frame;
    }
    stats.Add(|text.value|);
    stats.TrySend();
    return None, plain, frame;
  }

  /** copy_decrypt: the records taken from the tunnel are the first records of
      the stream, each is the peer's record at the next nonce, and the output is
      a prefix of their plaintexts. Ok means the stream ended cleanly after
      exactly these records and all their plaintext was written. */
  method CopyDecrypt(read: ByteStream, write: ByteSink, receiver: TransportReceiver, aead: IdealAead, stats: Telemetry,
                     ghost key: Key, ghost first: nat)
    returns (r: TaskResult, ghost plains: seq<bytes>, ghost frames: seq<bytes>)
    requires StandsAt(receiver.cell.cell, false, key, first)
    modifies read, write, receiver.cell, aead, stats
    ensures SealedAs(aead.log, key, first, plains, frames)
    ensures frames <= ParseAll(old(read.pending)).frames
    ensures old(write.written) <= write.written <= old(write.written) + Concat(plains)
    ensures r.Completed? ==>
              ParseAll(old(read.pending)) == Parsed(frames, Clean) && Concat(frames) == old(read.pending) &&
              write.closed &&
              Tally(old(write.written), plains, plains, old(stats.moved), write.written, stats.moved, stats.token)
    ensures DecryptCause(r, read.failed, write.failed, receiver.cell.cell, aead.log, key, first + |plains|, frames,
                         old(read.pending))
    ensures WholeOnly(plains, old(stats.moved), stats.moved)
  {
    plains, frames := [], [];
    hide SealedAs, StandsAt, Tally, Parses, ParseAll, ParseRecord;
    NothingYet(aead.log, key, first, write.written, stats.moved, stats.token);
    NothingParsed(read.pending);
    while true
      invariant SealedAs(aead.log, key, first, plains, frames) &&
                StandsAt(receiver.cell.cell, false, key, first + |plains|)
      invariant Parses(old(read.pending), frames, read.pending) && frames <= ParseAll(old(read.pending)).frames
      invariant Tally(old(write.written), plains, plains, old(stats.moved), write.written, stats.moved, stats.token)
      decreases |read.pending|
    {
      ghost var plain, frame;
      ghost var pending, written, moved, token := read.pending, write.written, stats.moved, stats.token;
      var result;
      result, plain, frame := DecryptRound(read, write, receiver, aead, stats, key, first, plains, frames);
      TallyMore(old(write.written), plains, plains, old(stats.moved), written, moved, token, plain, plain,
                write.written, stats.moved, stats.token);
      if |frame| == 1 {
        ParseStep(old(read.pending), frames, pending, frame);
      } else {
        assert frames + frame == frames;
      }
      if result.Some? {
        CountedWhole(plains, plain, old(write.written), plains, old(stats.moved), written, moved, token);
        CauseOfEnd(result.value, read.failed, write.failed, receiver.cell.cell, aead.log, key, first + |plains|,
                   old(read.pending), frames, pending);
        if frame == [] {
          assert plains + plain == plains;
        }
      }
      if result == Some(Completed) {
        ParseEnd(old(read.pending), frames, pending);
        assert plains + plain == plains;
      }
      plains, frames := plains + plain, frames + frame;
      if result.Some? {
        return result.value, plains, frames;
      }
    }
  }

  /** Every transfer starts with nothing moved. */
  lemma NothingYet(log: Log, key: Key, first: nat, written: bytes, moved: u64, token: bool)
    ensures SealedAs(log, key, first, [], [])
    ensures Tally(written, [], [], moved, written, moved, token)
  {
  }

  /** The stream parses to these records, then to whatever is still pending. */
  predicate Parses(stream: bytes, frames: seq<bytes>, pending: bytes) {
    ParseAll(stream) == Parsed(frames + ParseAll(pending).frames, ParseAll(pending).ending)
  }

  lemma NothingParsed(stream: bytes)
    ensures Parses(stream, [], stream)
  {
    assert [] + ParseAll(stream).frames == ParseAll(stream).frames;
  }

  lemma ParseStep(stream: bytes, frames: seq<bytes>, pending: bytes, frame: seq<bytes>)
    requires |frame| == 1
    requires Parses(stream, frames, pending) && ParseRecord(pending) == Ok(Some(frame[0]))
    ensures |pending[|frame[0]|..]| < |pending|
    ensures Parses(stream, frames + frame, pending[|frame[0]|..])
    ensures frames + frame <= ParseAll(stream).frames
  {
    var rest := ParseAll(pending[|frame[0]|..]);
    assert frame == [frame[0]];
    assert frames + (frame + rest.frames) == frames + frame + rest.frames;
  }

  lemma CauseOfEnd(r: TaskResult, readFailed: bool, writeFailed: bool, cell: Cell, log: Log, key: Key, nonce: nat,
                   stream: bytes, frames: seq<bytes>, pending: bytes)
    requires Parses(stream, frames, pending)
    requires RoundCause(r, readFailed, writeFailed, cell, log, key, nonce, ParseRecord(pending))
    ensures DecryptCause(r, readFailed, writeFailed, cell, log, key, nonce, frames, stream)
  {
    assert frames + [] == frames;
    hide OpenCause;
  }

  lemma ParseEnd(stream: bytes, frames: seq<bytes>, pending: bytes)
    requires Parses(stream, frames, pending) && ParseRecord(pending) == Ok(None)
    ensures ParseAll(stream) == Parsed(frames, Clean) && Concat(frames) == stream
  {
    assert frames + [] == frames;
    ParseAllExact(stream);
  }

  /** Taking one more part from the front of what was pending. */
  lemma TakenMore(input: bytes, parts: seq<bytes>, more: seq<bytes>, pending: bytes, rest: bytes)
    requires input == Concat(parts) + pending && pending == Concat(more) + rest
    ensures input == Concat(parts + more) + rest
  {
    ConcatAppend(parts, more);
    assert Concat(parts) + (Concat(more) + rest) == Concat(parts) + Concat(more) + rest;
  }

  /** A transfer that stands between two rounds: all of `out` is written behind
      `base`, the counter has moved by the size of `texts`, and activity has been
      signalled if anything was transferred. */
  predicate Tally(base: bytes, out: seq<bytes>, texts: seq<bytes>, from: u64, written: bytes, moved: u64, token: bool) {
    written == base + Concat(out) && moved == FetchAdd(from, |Concat(texts)|) && (texts != [] ==> token)
  }

  /** The counter has counted all parts, or all but a last one whose delivery
      failed; never a part of one. */
  predicate WholeOnly(texts: seq<bytes>, from: u64, moved: u64) {
    || moved == FetchAdd(from, |Concat(texts)|)
    || (texts != [] && moved == FetchAdd(from, |Concat(texts[..|texts| - 1])|))
  }

  lemma CountedWhole(texts: seq<bytes>, more: seq<bytes>, base: bytes, out: seq<bytes>, from: u64, written: bytes,
                     moved: u64, token: bool)
    requires Tally(base, out, texts, from, written, moved, token) && |more| <= 1
    ensures WholeOnly(texts + more, from, moved)
  {
    hide Concat, FetchAdd;
    if more == [] {
      assert texts + more == texts;
    } else {
      assert (texts + more)[..|texts + more| - 1] == texts;
    }
  }

  /** One more round on top of a standing transfer. */
  lemma TallyMore(base: bytes, out: seq<bytes>, texts: seq<bytes>, from: u64, written: bytes, moved: u64, token: bool,
                  moreOut: seq<bytes>, moreTexts: seq<bytes>, written': bytes, moved': u64, token': bool)
    requires Tally(base, out, texts, from, written, moved, token)
    requires written <= written' <= written + Concat(moreOut)
    ensures base <= written' <= base + Concat(out + moreOut)
    ensures written' == written + Concat(moreOut) && moved' == FetchAdd(moved, |Concat(moreTexts)|) && token' ==>
              Tally(base, out + moreOut, texts + moreTexts, from, written', moved', token')
  {
    CountMore(from, texts, moreTexts);
    WrittenMore(base, out, moreOut);
    hide Concat, FetchAdd;
  }

  lemma CountMore(from: u64, parts: seq<bytes>, more: seq<bytes>)
    ensures FetchAdd(FetchAdd(from, |Concat(parts)|), |Concat(more)|) == FetchAdd(from, |Concat(parts + more)|)
  {
    hide Concat, FetchAdd;
    ConcatAppend(parts, more);
    CountTwice(from, |Concat(parts)|, |Concat(more)|);
  }

  lemma CountTwice(from: u64, a: nat, b: nat)
    ensures FetchAdd(FetchAdd(from, a), b) == FetchAdd(from, a + b)
  {
  }

  lemma WrittenMore(base: bytes, parts: seq<bytes>, more: seq<bytes>)
    ensures base + Concat(parts) + Concat(more) == base + Concat(parts + more)
  {
    ConcatAppend(parts, more);
  }
}
