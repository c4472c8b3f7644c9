/** What the relay loop of one endpoint guarantees in every run, whatever the
    network, the local application, the clock and the scheduler do. */
module RelayLoop {
  import opened Basics
  import opened Wire
  import opened FrameReader
  import opened Transport
  import opened Endpoint
  import Steps

  /** One step's input: the label, and all encryptions made anywhere so far. */
  datatype Input = Input(act: Label, log: Log)

  function Run(n: Node, inputs: seq<Input>): Node {
    if inputs == [] then n
    else
      var last := inputs[|inputs| - 1];
      Step(Run(n, inputs[..|inputs| - 1]), last.log, last.act).0
  }

  lemma {:induction false} RunAppend(n: Node, a: seq<Input>, b: seq<Input>)
    ensures Run(n, a + b) == Run(Run(n, a), b)
  {
    if b == [] {
      assert a + b == a;
    } else {
      var front := b[..|b| - 1];
      assert (a + b)[..|a + b| - 1] == a + front;
      RunAppend(n, a, front);
    }
  }

  // -------------------------------------------------------------- invariants

  predicate EncInv(enc: Encrypting) {
    && enc.written + enc.rest == Concat(enc.frames)
    && Concat(enc.chunks) <= enc.input
    && (!(enc.pc.Finished? && enc.pc.result.Failed? && enc.pc.result.reason.CipherError?) ==>
        Concat(enc.chunks) == enc.input)
    && (enc.pc.Writing? ==> enc.rest != [])
    && (enc.pc.Reading? || enc.pc.Flushing? || enc.pc.Closing? || enc.pc == Finished(Completed) ==> enc.rest == [])
  }

  predicate DecInv(dec: Decrypting) {
    && dec.output + dec.rest == Concat(dec.plains)
    && (dec.pc.Writing? ==> dec.rest != [])
    && (dec.pc.Reading? || dec.pc.Flushing? || dec.pc.Closing? || dec.pc == Finished(Completed) ==> dec.rest == [])
    && (dec.pc.Writing? || dec.pc.Flushing? || dec.pc.Closing? || dec.pc == Finished(Completed) ==> dec.partial == [])
  }

  predicate RelayInv(n: Node) {
    && n.lastRecord <= n.now
    && !n.relay.repolled
    && (n.relay.exit.Running? ==> n.relay.token || n.relay.deadline >= n.lastRecord + n.idle)
    && (n.relay.exit.Running? ==> !Joined(n, Deciding(n.side)))
    && (Joined(n, EncryptTask) ==> n.enc.pc.Finished?)
    && (Joined(n, DecryptTask) ==> n.dec.pc.Finished?)
    && (n.relay.exit.ReturnedOk? ==> PcOf(n, Deciding(n.side)) == Finished(Completed))
    && (n.relay.aborting <==> !n.relay.exit.Running? && !n.relay.exit.TaskPanicked?)
  }

  predicate Inv(n: Node) {
    EncInv(n.enc) && DecInv(n.dec) && RelayInv(n)
  }

  lemma EncReadKeepsEnc(n: Node, log: Log, data: bytes, cipher: bytes)
    requires EncInv(n.enc)
    ensures EncInv(EncReadStep(n, log, data, cipher).0.enc)
  {
    var o := Seal(n.cell, log, data, cipher);
    ConcatSnoc(n.enc.chunks, data);
    if o.result.Ok? {
      ConcatSnoc(n.enc.frames, o.result.value);
    }
  }

  lemma EncReadKeepsInv(n: Node, log: Log, data: bytes, cipher: bytes)
    requires Inv(n)
    ensures Inv(EncReadStep(n, log, data, cipher).0)
  {
    EncReadKeepsEnc(n, log, data, cipher);
    hide EncInv, DecInv, Seal;
  }

  lemma EncStepKeepsInv(n: Node, l: Label)
    requires Inv(n)
    ensures Inv(EncStep(n, l))
  {
    if l.EncWrite? && n.enc.pc == Writing && 1 <= l.count <= |n.enc.rest| {
      assert n.enc.rest == n.enc.rest[..l.count] + n.enc.rest[l.count..];
    }
  }

  lemma DecReadKeepsDec(n: Node, log: Log, data: bytes)
    requires DecInv(n.dec)
    ensures DecInv(DecReadStep(n, log, data).dec)
  {
    hide Open, Want, FromBe, Concat;
    var o := Open(n.cell, log, n.dec.partial + data);
    if o.result.Ok? {
      ConcatSnoc(n.dec.plains, o.result.value);
    }
  }

  lemma DecReadKeepsInv(n: Node, log: Log, data: bytes)
    requires Inv(n)
    ensures Inv(DecReadStep(n, log, data))
  {
    DecReadKeepsDec(n, log, data);
    hide EncInv, DecInv, Open;
  }

  lemma DecStepKeepsInv(n: Node, l: Label)
    requires Inv(n)
    ensures Inv(DecStep(n, l))
  {
    if l.DecWrite? && n.dec.pc == Writing && 1 <= l.count <= |n.dec.rest| {
      assert n.dec.rest == n.dec.rest[..l.count] + n.dec.rest[l.count..];
    }
  }

  lemma FaultStepKeepsInv(n: Node, l: Label)
    requires Inv(n)
    ensures Inv(FaultStep(n, l))
  {
  }

  lemma PollKeepsInv(n: Node, task: Task)
    requires Inv(n)
    ensures Inv(PollStep(n, task))
  {
    hide EncInv, DecInv;
  }

  lemma RelayStepKeepsInv(n: Node, l: Label)
    requires Inv(n)
    ensures Inv(RelayStep(n, l))
  {
  }

  lemma TickKeepsInv(n: Node, delay: nat)
    requires Inv(n)
    ensures Inv(n.(now := n.now + delay))
  {
  }

  lemma {:induction false} StepKeepsInv(n: Node, log: Log, l: Label)
    requires Inv(n)
    ensures Inv(Step(n, log, l).0)
  {
    hide EncInv, DecInv, RelayInv;
    match l
    case EncRead(data, cipher) => EncReadKeepsInv(n, log, data, cipher);
    case DecRead(data) => DecReadKeepsInv(n, log, data);
    case EncEof => EncStepKeepsInv(n, l);
    case EncWrite(_) => EncStepKeepsInv(n, l);
    case EncFlush => EncStepKeepsInv(n, l);
    case EncShutdown => EncStepKeepsInv(n, l);
    case DecEof => DecStepKeepsInv(n, l);
    case DecWrite(_) => DecStepKeepsInv(n, l);
    case DecFlush => DecStepKeepsInv(n, l);
    case DecShutdown => DecStepKeepsInv(n, l);
    case SocketFault(_) => FaultStepKeepsInv(n, l);
    case Panic(_, _) => FaultStepKeepsInv(n, l);
    case Cancel(_) => FaultStepKeepsInv(n, l);
    case Poll(task) => PollKeepsInv(n, task);
    case Tick(delay) => TickKeepsInv(n, delay);
    case Activity => RelayStepKeepsInv(n, l);
    case IdleFires => RelayStepKeepsInv(n, l);
    case Shutdown => RelayStepKeepsInv(n, l);
  }

  lemma {:induction false} RunKeepsInv(side: Side, session: nat, idle: nat, now: nat, inputs: seq<Input>)
    ensures Inv(Run(Start(side, session, idle, now), inputs))
  {
    if inputs != [] {
      var before, last := inputs[..|inputs| - 1], inputs[|inputs| - 1];
      RunKeepsInv(side, session, idle, now, before);
      StepKeepsInv(Run(Start(side, session, idle, now), before), last.log, last.act);
    }
  }

  lemma SideStays(n: Node, log: Log, l: Label)
    ensures var m := Step(n, log, l).0; m.side == n.side && m.idle == n.idle && m.session == n.session
  {
  }

  lemma {:induction false} RunSide(n: Node, inputs: seq<Input>)
    ensures Run(n, inputs).side == n.side && Run(n, inputs).idle == n.idle
  {
    if inputs != [] {
      RunSide(n, inputs[..|inputs| - 1]);
    }
  }

  /** One of the tasks has flushed a whole record in this step. */
  predicate Flushed(n: Node, m: Node) {
    (n.enc.pc.Flushing? && m.enc.pc.Reading?) || (n.dec.pc.Flushing? && m.dec.pc.Reading?)
  }

  /** The last moment at which either task had flushed a whole record, or the
      start of the relay: a fact about the run alone. */
  function LastFlush(n: Node, inputs: seq<Input>): nat {
    if inputs == [] then n.now
    else
      var before := Run(n, inputs[..|inputs| - 1]);
      var after := Run(n, inputs);
      if Flushed(before, after) then after.now
      else LastFlush(n, inputs[..|inputs| - 1])
  }

  lemma FlushNotifies(n: Node, log: Log, l: Label)
    ensures var m := Step(n, log, l).0;
            m.lastRecord ==
            if Flushed(n, m) then m.now else n.lastRecord
  {
  }

  lemma {:induction false} LastRecordIsLastFlush(n: Node, inputs: seq<Input>)
    requires n.lastRecord == n.now
    ensures Run(n, inputs).lastRecord == LastFlush(n, inputs)
  {
    if inputs != [] {
      var before, last := inputs[..|inputs| - 1], inputs[|inputs| - 1];
      LastRecordIsLastFlush(n, before);
      FlushNotifies(Run(n, before), last.log, last.act);
    }
  }

  /** Whether a record was flushed since the loop last took its activity branch
      (or since it began): a fact about the run alone. */
  function Unseen(n: Node, inputs: seq<Input>): bool {
    if inputs == [] then false
    else
      var before := Run(n, inputs[..|inputs| - 1]);
      var after := Run(n, inputs);
      if Flushed(before, after) then true
      else inputs[|inputs| - 1].act != Activity && Unseen(n, inputs[..|inputs| - 1])
  }

  lemma TokenStep(n: Node, log: Log, l: Label)
    requires Step(n, log, l).0.relay.exit.Running?
    ensures var m := Step(n, log, l).0;
            && n.relay.exit.Running?
            && m.relay.token ==
               if Flushed(n, m) then true
               else l != Activity && n.relay.token
  {
    hide Seal, Open, Want, FromBe;
    match l
    case EncRead(data, cipher) =>
    case DecRead(data) =>
    case _ => hide EncReadStep, DecReadStep;
  }

  /** The one slot loses nothing and invents nothing: while the loop runs, a
      token waits iff a record was flushed that the loop has not yet noticed. */
  lemma {:induction false} TokenMeansUnseen(side: Side, session: nat, idle: nat, now: nat, inputs: seq<Input>)
    ensures var start := Start(side, session, idle, now);
            Run(start, inputs).relay.exit.Running? ==> (Run(start, inputs).relay.token <==> Unseen(start, inputs))
  {
    var start := Start(side, session, idle, now);
    if inputs != [] && Run(start, inputs).relay.exit.Running? {
      var before, last := inputs[..|inputs| - 1], inputs[|inputs| - 1];
      TokenStep(Run(start, before), last.log, last.act);
      TokenMeansUnseen(side, session, idle, now, before);
    }
  }

  // ------------------------------------------- the reader against the parser

  predicate WholeRecord(frame: bytes) {
    ParseRecord(frame) == Ok(Some(frame))
  }

  /** The unfinished rest, for each way the reader can stand. */
  predicate RestStands(pc: Pc, partial: bytes) {
    match pc
    case Reading => ParseRecord(partial) == if partial == [] then Ok(None) else Err(UnexpectedEof)
    case Writing => partial == []
    case Flushing => partial == []
    case Closing => partial == []
    case Finished(Completed) => partial == []
    case Finished(Failed(FrameError(e))) => ParseRecord(partial) == Err(e)
    case Finished(Failed(CipherError(_))) => WholeRecord(partial)
    case Finished(_) => true
  }

  /** What was read is the opened records, whole ones, and the rest. */
  predicate ReadsAs(dec: Decrypting, frames: seq<bytes>) {
    && |frames| == |dec.plains| && (forall f :: f in frames ==> WholeRecord(f))
    && dec.consumed == Concat(frames) + dec.partial
    && RestStands(dec.pc, dec.partial)
  }

  lemma {:induction false} ParseWhole(frames: seq<bytes>, rest: bytes)
    requires forall f :: f in frames ==> WholeRecord(f)
    ensures ParseAll(Concat(frames) + rest) == Parsed(frames + ParseAll(rest).frames, ParseAll(rest).ending)
  {
    hide ParseRecord, ParseAll;
    if frames == [] {
      assert Concat(frames) + rest == rest;
      assert [] + ParseAll(rest).frames == ParseAll(rest).frames;
    } else {
      var first, tail := frames[0], frames[1..];
      var after := Concat(tail) + rest;
      assert Concat(frames) + rest == first + after by { ConcatCons(frames); }
      ParseWhole(tail, rest);
      WholeFirst(first, after);
      assert [first] + (tail + ParseAll(rest).frames) == frames + ParseAll(rest).frames;
    }
  }

  lemma WholeFirst(frame: bytes, after: bytes)
    requires WholeRecord(frame)
    ensures ParseAll(frame + after) == Parsed([frame] + ParseAll(after).frames, ParseAll(after).ending)
  {
    RecordExact(frame, []);
    ParseFirst(DecodeRecordFrame(frame).value, after);
  }

  /** The buffer after one more read is what the parser makes of it. */
  lemma OneMoreRead(partial: bytes, data: bytes)
    requires RestStands(Reading, partial) && 1 <= |data| <= Want(partial)
    ensures var got := partial + data;
            if |got| < 4 then ParseRecord(got) == Err(UnexpectedEof)
            else
              var length := FromBe(got[..4]);
              if length == 0 || length > MAX_CIPHERTEXT_RECORD then ParseRecord(got) == Err(InvalidLength(length))
              else if |got| < 4 + length then ParseRecord(got) == Err(UnexpectedEof)
              else WholeRecord(got)
  {
    var got := partial + data;
    if |got| >= 4 {
      if |partial| >= 4 {
        assert got[..4] == partial[..4];
      }
      assert got[..|got|] == got;
    }
    hide FromBe;
  }

  /** One read of the reader, against the parser. */
  lemma DecReadReads(n: Node, log: Log, data: bytes, frames: seq<bytes>) returns (frames': seq<bytes>)
    requires ReadsAs(n.dec, frames)
    ensures ReadsAs(DecReadStep(n, log, data).dec, frames')
  {
    frames' := frames;
    if n.dec.pc == Reading && 1 <= |data| <= Want(n.dec.partial) {
      var got := n.dec.partial + data;
      OneMoreRead(n.dec.partial, data);
      assert n.dec.consumed + data == Concat(frames) + got;
      hide ParseRecord, FromBe, Open;
      if DecReadStep(n, log, data).dec.plains != n.dec.plains {
        frames' := frames + [got];
        ConcatSnoc(frames, got);
      }
    }
  }

  lemma OthersRead(n: Node, log: Log, l: Label, frames: seq<bytes>)
    requires ReadsAs(n.dec, frames) && DecInv(n.dec) && !l.DecRead?
    ensures ReadsAs(Step(n, log, l).0.dec, frames)
  {
  }

  lemma {:induction false} RunReads(side: Side, session: nat, idle: nat, now: nat, inputs: seq<Input>)
    returns (frames: seq<bytes>)
    ensures ReadsAs(Run(Start(side, session, idle, now), inputs).dec, frames)
  {
    if inputs == [] {
      frames := [];
    } else {
      var last := inputs[|inputs| - 1];
      var before := Run(Start(side, session, idle, now), inputs[..|inputs| - 1]);
      frames := RunReads(side, session, idle, now, inputs[..|inputs| - 1]);
      RunKeepsInv(side, session, idle, now, inputs[..|inputs| - 1]);
      hide ReadsAs, DecReadStep, EncReadStep, EncInv, DecInv, RelayInv;
      if last.act.DecRead? {
        frames := DecReadReads(before, last.log, last.act.data, frames);
      } else {
        OthersRead(before, last.log, last.act, frames);
      }
    }
  }

  /** The reader inside the endpoint is the parser: in every run the records it
      handed to the cipher are the parse of all the bytes it consumed, it has
      its clean end or its framing error exactly where and as the parser says,
      and at most one record, the last, was refused by the cipher. */
  lemma {:induction false} ReaderFollowsParser(side: Side, session: nat, idle: nat, now: nat, inputs: seq<Input>)
    ensures var dec := Run(Start(side, session, idle, now), inputs).dec;
            var p := ParseAll(dec.consumed);
            && |dec.plains| <= |p.frames| && dec.consumed == Concat(p.frames[..|dec.plains|]) + dec.partial
            && match dec.pc
               case Reading =>
                 p == Parsed(p.frames[..|dec.plains|], if dec.partial == [] then Clean else Broken(UnexpectedEof))
               case Writing => p == Parsed(p.frames[..|dec.plains|], Clean)
               case Flushing => p == Parsed(p.frames[..|dec.plains|], Clean)
               case Closing => p == Parsed(p.frames[..|dec.plains|], Clean)
               case Finished(Completed) => p == Parsed(p.frames[..|dec.plains|], Clean)
               case Finished(Failed(FrameError(e))) => p == Parsed(p.frames[..|dec.plains|], Broken(e))
               case Finished(Failed(CipherError(_))) => p == Parsed(p.frames[..|dec.plains|] + [dec.partial], Clean)
               case Finished(_) => true
  {
    var dec := Run(Start(side, session, idle, now), inputs).dec;
    var frames := RunReads(side, session, idle, now, inputs);
    hide Run;
    ParseWhole(frames, dec.partial);
    assert ParseAll(dec.consumed).frames[..|frames|] == frames;
    RestParses(dec.pc, dec.partial);
    hide ParseAll, ParseRecord;
  }

  lemma RestParses(pc: Pc, partial: bytes)
    requires RestStands(pc, partial)
    ensures partial == [] ==> ParseAll(partial) == Parsed([], Clean)
    ensures ParseRecord(partial).Err? ==> ParseAll(partial) == Parsed([], Broken(ParseRecord(partial).error))
    ensures WholeRecord(partial) ==> ParseAll(partial) == Parsed([partial], Clean)
  {
    if WholeRecord(partial) {
      assert partial[|partial|..] == [];
    }
  }

  // ------------------------------------------------------------ main results

  /** A client relay that returns Ok has delivered every opened record to the
      local application and stopped at a record boundary; a server relay that
      returns Ok has read, sealed and written everything the destination sent.
      No completed task handle is ever polled again. */
  lemma {:induction false} RelayDrains(side: Side, session: nat, idle: nat, now: nat, inputs: seq<Input>)
    ensures var n := Run(Start(side, session, idle, now), inputs);
            && !n.relay.repolled
            && (n.relay.exit.ReturnedOk? && side == Client ==>
                  n.dec.pc == Finished(Completed) && n.dec.partial == [] && n.dec.output == Concat(n.dec.plains))
            && (n.relay.exit.ReturnedOk? && side == Server ==>
                  n.enc.pc == Finished(Completed) && n.enc.input == Concat(n.enc.chunks) &&
                  n.enc.written == Concat(n.enc.frames))
  {
    RunKeepsInv(side, session, idle, now, inputs);
    RunSide(Start(side, session, idle, now), inputs);
  }

  /** The only ways out of the loop. In particular the clean end of the
      opposite direction is never one of them. */
  lemma ExitCauses(n: Node, log: Log, l: Label)
    requires n.relay.exit.Running? && !Step(n, log, l).0.relay.exit.Running?
    ensures || (l == Poll(Deciding(n.side)) && PcOf(n, Deciding(n.side)).Finished?)
            || (exists task :: l == Poll(task) && PcOf(n, task).Finished? && !PcOf(n, task).result.Completed?)
            || (l == IdleFires && n.now >= n.relay.deadline)
            || l == Shutdown
    ensures Step(n, log, l).0.relay.exit.ReturnedOk? <==>
              l == Poll(Deciding(n.side)) && PcOf(n, Deciding(n.side)) == Finished(Completed)
  {
  }

  /** Idle coalescing: with one token slot nothing is lost. Whenever the timer
      fires and no token waits, a full idle window has passed since the last
      record in either direction; and while no token waits the deadline lies at
      least that far after it. */
  lemma {:induction false} IdleExitMeansIdle(side: Side, session: nat, idle: nat, now: nat, inputs: seq<Input>,
                                             log: Log)
    ensures var start := Start(side, session, idle, now);
            var n := Run(start, inputs);
            n.relay.exit.Running? && !n.relay.token ==>
              && n.relay.deadline >= LastFlush(start, inputs) + idle
              && (Step(n, log, IdleFires).0.relay.exit.IdleTimeout? ==> n.now >= LastFlush(start, inputs) + idle)
  {
    RunKeepsInv(side, session, idle, now, inputs);
    RunSide(Start(side, session, idle, now), inputs);
    LastRecordIsLastFlush(Start(side, session, idle, now), inputs);
  }

  lemma OneStep(n: Node, i: Input)
    ensures Run(n, [i]) == Step(n, i.log, i.act).0
  {
    assert [i][..0] == [];
    assert Run(n, []) == n;
  }

  lemma TwoSteps(n: Node, i: Input, j: Input)
    ensures Run(n, [i, j]) == Step(Step(n, i.log, i.act).0, j.log, j.act).0
  {
    OneStep(n, i);
    assert [i, j][..1] == [i];
  }

  /** An endpoint that can still send may at any time take any chunk from its
      application, seal it and write the record. */
  lemma OneRecord(n: Node, chunk: bytes) returns (inputs: seq<Input>)
    requires Ready(n.cell, true) && n.enc.pc == Reading && 1 <= |chunk| <= MAX_PLAINTEXT_RECORD
    ensures var m := Run(n, inputs);
            && m.enc.pc == Flushing && m.enc.chunks == n.enc.chunks + [chunk]
            && |m.enc.written| == |n.enc.written| + 4 + |chunk| + TAG_LENGTH
            && m.relay == n.relay && m.now == n.now
  {
    var cipher := chunk + seq(TAG_LENGTH, _ => 0);
    var read, write := Input(EncRead(chunk, cipher), map[]), Input(EncWrite(4 + |cipher|), map[]);
    inputs := [read, write];
    TwoSteps(n, read, write);
    hide Run, Step;
    Steps.ReadIsSealed(n, map[], chunk, cipher);
    var m := Step(n, map[], read.act).0;
    Steps.WriteMoves(m, map[], |m.enc.rest|);
  }

  /** A record flushed after the deadline: its token waits, and the timer wins. */
  lemma FlushThenIdle(n: Node, flush: Input, idle: Input)
    requires n.enc.pc == Flushing && n.relay.exit.Running? && n.now >= n.relay.deadline
    requires flush == Input(EncFlush, map[]) && idle == Input(IdleFires, map[])
    ensures var m := Run(n, [flush, idle]);
            m.relay.exit.IdleTimeout? && m.relay.token && m.lastRecord == m.now
  {
    TwoSteps(n, flush, idle);
    hide Run;
  }

  /** With a token waiting the guarantee is lost: the loop chooses freely among
      its ready branches, and may time out at the very moment of a record. */
  lemma IdleExitWithPendingToken()
    ensures exists inputs ::
              var n := Run(Start(Client, 0, 10, 0), inputs);
              n.relay.exit.IdleTimeout? && n.relay.token && n.lastRecord == n.now
  {
    var n0 := Start(Client, 0, 10, 0);
    var tick, flush, idle := Input(Tick(10), map[]), Input(EncFlush, map[]), Input(IdleFires, map[]);
    OneStep(n0, tick);
    hide Run;
    var n1 := Run(n0, [tick]);
    assert n1 == n0.(now := 10);
    hide Step;
    var record := OneRecord(n1, [7]);
    FlushThenIdle(Run(n1, record), flush, idle);
    RunAppend(n1, record, [flush, idle]);
    RunAppend(n0, [tick], record + [flush, idle]);
  }

  /** Sealing and writing a record takes no notice of the time. */
  lemma TimeIsIrrelevant(n: Node, now: nat, read: Label, write: Label)
    requires read.EncRead? && write.EncWrite?
    ensures Step(Step(n.(now := now), map[], read).0, map[], write).0 ==
            Step(Step(n, map[], read).0, map[], write).0.(now := now)
  {
    hide Seal;
  }

  lemma TwoThenTwo(n: Node, a: Input, b: Input, c: Input, d: Input)
    ensures Run(n, [a, b, c, d]) ==
            Step(Step(Step(Step(n, a.log, a.act).0, b.log, b.act).0, c.log, c.act).0, d.log, d.act).0
  {
    TwoSteps(n, a, b);
    TwoSteps(Run(n, [a, b]), c, d);
    RunAppend(n, [a, b], [c, d]);
    assert [a, b] + [c, d] == [a, b, c, d];
  }

  /** A waiting token hides the time of its record: two runs that end in the same
      state of the loop, of both tasks and of the clock, with the timer due, and
      differ only in when the last record was flushed. In one the timeout is a
      true idle window, in the other it is not, so no condition on what the loop
      can see tells them apart. */
  lemma {:induction false} TokenHidesTime() returns (a: seq<Input>, b: seq<Input>)
    ensures var start := Start(Client, 0, 10, 0);
            var m, n := Run(start, a), Run(start, b);
            && m == n.(lastRecord := m.lastRecord)
            && n.relay.exit.Running? && n.relay.token && n.now >= n.relay.deadline
            && m.now >= LastFlush(start, a) + m.idle && n.now < LastFlush(start, b) + n.idle
  {
    var n0 := Start(Client, 0, 10, 0);
    var read, write := Input(EncRead([7], seq(17, _ => 0)), map[]), Input(EncWrite(21), map[]);
    var flush, tick := Input(EncFlush, map[]), Input(Tick(20), map[]);
    a, b := [read, write, flush, tick], [tick, read, write, flush];
    TwoThenTwo(n0, read, write, flush, tick);
    TwoThenTwo(n0, tick, read, write, flush);
    LastRecordIsLastFlush(n0, a);
    LastRecordIsLastFlush(n0, b);
    hide Run, LastFlush, Step;
    EarlyOrLate(n0, read.act, write.act);
  }

  /** A record before or after a pause: the same state but for its time. */
  lemma EarlyOrLate(n: Node, read: Label, write: Label)
    requires n.cell.Live() && n.cell.state.value.sendNonce < LAST_NONCE && n.enc.pc == Reading && n.relay.exit.Running?
    requires read == EncRead([7], seq(17, _ => 0)) && write == EncWrite(21)
    ensures var l: Log := map[];
            var a := Step(Step(Step(Step(n, l, read).0, l, write).0, l, EncFlush).0, l, Tick(20)).0;
            var b := Step(Step(Step(Step(n, l, Tick(20)).0, l, read).0, l, write).0, l, EncFlush).0;
            && a.lastRecord == n.now && b.lastRecord == n.now + 20 && a == b.(lastRecord := n.now)
            && b.now == n.now + 20 && b.relay == n.relay.(token := true) && b.idle == n.idle
  {
    TimeIsIrrelevant(n, n.now + 20, read, write);
    assert Step(n, map[], Tick(20)).0 == n.(now := n.now + 20);
    hide Step;
    var written := WriteOne(n, read, write);
    FlushAndTick(written);
  }

  lemma FlushAndTick(n: Node)
    requires n.enc.pc == Flushing && n.relay.exit.Running?
    ensures Step(Step(n, map[], EncFlush).0, map[], Tick(20)).0 ==
            n.(enc := n.enc.(pc := Reading), relay := n.relay.(token := true), lastRecord := n.now, now := n.now + 20)
    ensures Step(n.(now := n.now + 20), map[], EncFlush).0 ==
            n.(enc := n.enc.(pc := Reading), relay := n.relay.(token := true),
               lastRecord := n.now + 20, now := n.now + 20)
  {
  }

  lemma WriteOne(n: Node, read: Label, write: Label) returns (m: Node)
    requires n.cell.Live() && n.cell.state.value.sendNonce < LAST_NONCE && n.enc.pc == Reading
    requires read == EncRead([7], seq(17, _ => 0)) && write == EncWrite(21)
    ensures m == Step(Step(n, map[], read).0, map[], write).0
    ensures m.enc.pc == Flushing && m.relay == n.relay && m.now == n.now && m.idle == n.idle
  {
    hide Frame;
    var sealed := Step(n, map[], read).0;
    assert sealed.enc.pc == Writing && |sealed.enc.rest| == 21;
    m := Step(sealed, map[], write).0;
  }

  // ------------------------------------------------------------- half-closing

  lemma RecordHeader(cipher: bytes)
    requires |cipher| <= MAX_CIPHERTEXT_RECORD
    ensures FromBe(Frame(4, cipher)[..4]) == |cipher| && DecodeRecordFrame(Frame(4, cipher)) == Ok(cipher)
  {
    HeaderWidths();
    FromToBe(|cipher|, 4);
    assert Frame(4, cipher)[..4] == ToBe(|cipher|, 4);
    DecodeExact(Frame(4, cipher), 4, MAX_CIPHERTEXT_RECORD, false, cipher);
  }

  /** A read that leaves the record unfinished. */
  lemma MiddleRead(n: Node, log: Log, cipher: bytes, from: nat, to: nat)
    requires 1 <= |cipher| <= MAX_CIPHERTEXT_RECORD && from < to < 4 + |cipher|
    requires n.dec.pc == Reading && n.dec.partial == Frame(4, cipher)[..from]
    requires to - from <= Want(n.dec.partial)
    ensures var m := Step(n, log, DecRead(Frame(4, cipher)[from..to])).0;
            && m == n.(dec := m.dec) && m.dec.pc == Reading && m.dec.partial == Frame(4, cipher)[..to]
            && m.dec.output == n.dec.output
  {
    var frame := Frame(4, cipher);
    RecordHeader(cipher);
    hide Frame, FromBe, Open;
    assert n.dec.partial + frame[from..to] == frame[..to];
    if to >= 4 {
      assert frame[..to][..4] == frame[..4];
    }
  }

  /** The read that completes it. */
  lemma LastRead(n: Node, log: Log, made: Sealed)
    requires n.cell.Live() && n.cell.state.value.recvNonce < LAST_NONCE
    requires var t := n.cell.state.value; (t.recvKey, t.recvNonce) in log && log[(t.recvKey, t.recvNonce)] == made
    requires 1 <= |made.plain| <= MAX_PLAINTEXT_RECORD && |made.cipher| == |made.plain| + TAG_LENGTH
    requires n.dec.pc == Reading && n.dec.partial == Frame(4, made.cipher)[..4]
    ensures var m := Step(n, log, DecRead(Frame(4, made.cipher)[4..])).0;
            && m.dec.pc == Writing && m.dec.rest == made.plain && m.dec.output == n.dec.output
            && m.enc == n.enc && m.relay == n.relay
  {
    var frame := Frame(4, made.cipher);
    RecordHeader(made.cipher);
    assert frame[..4] + frame[4..] == frame && frame[..4][..4] == frame[..4];
    hide Frame, FromBe, DecodeFrame;
  }

  lemma DeliverAll(n: Node, log: Log)
    requires n.dec.pc == Writing && n.dec.rest != []
    ensures var m := Step(n, log, DecWrite(|n.dec.rest|)).0;
            m.dec.pc == Flushing && m.dec.output == n.dec.output + n.dec.rest && m.enc == n.enc && m.relay == n.relay
  {
    assert n.dec.rest[..|n.dec.rest|] == n.dec.rest;
  }

  /** A whole record of the peer, opened and delivered to the application. */
  lemma {:induction false} ReadRecord(n: Node, log: Log, made: Sealed) returns (inputs: seq<Input>)
    requires n.cell.Live() && n.cell.state.value.recvNonce < LAST_NONCE
    requires var t := n.cell.state.value; (t.recvKey, t.recvNonce) in log && log[(t.recvKey, t.recvNonce)] == made
    requires 1 <= |made.plain| <= MAX_PLAINTEXT_RECORD && |made.cipher| == |made.plain| + TAG_LENGTH
    requires n.dec.pc == Reading && n.dec.partial == []
    ensures var m := Run(n, inputs);
            && m.dec.pc == Flushing && m.dec.output == n.dec.output + made.plain
            && m.enc == n.enc && m.relay == n.relay
  {
    var frame := Frame(4, made.cipher);
    var a, b, c := Input(DecRead(frame[0..1]), log), Input(DecRead(frame[1..4]), log), Input(DecRead(frame[4..]), log);
    var d := Input(DecWrite(|made.plain|), log);
    inputs := [a, b, c, d];
    TwoThenTwo(n, a, b, c, d);
    hide Run, Step, Frame;
    assert frame[..0] == [];
    MiddleRead(n, log, made.cipher, 0, 1);
    var n1 := Step(n, log, a.act).0;
    MiddleRead(n1, log, made.cipher, 1, 4);
    var n2 := Step(n1, log, b.act).0;
    LastRead(n2, log, made);
    DeliverAll(Step(n2, log, c.act).0, log);
  }

  /** The local application ends its stream: the tunnel writer is shut down, the
      uplink completes and is joined, and nothing else happens. */
  lemma UplinkEnds(n: Node) returns (inputs: seq<Input>)
    requires n.side == Client && n.enc.pc == Reading && n.relay.exit.Running? && !n.relay.encryptJoined
    ensures Run(n, inputs) == n.(enc := n.enc.(pc := Finished(Completed)), relay := n.relay.(encryptJoined := true))
  {
    var eof, shut, poll := Input(EncEof, map[]), Input(EncShutdown, map[]), Input(Poll(EncryptTask), map[]);
    inputs := [eof, shut] + [poll];
    TwoSteps(n, eof, shut);
    OneStep(Run(n, [eof, shut]), poll);
    RunAppend(n, [eof, shut], [poll]);
    hide Run;
    assert Step(n, map[], EncEof).0 == n.(enc := n.enc.(pc := Closing));
    assert Run(n, [eof, shut]) == n.(enc := n.enc.(pc := Finished(Completed)));
  }

  /** Half-closing happens: on the client the application ends its stream, the
      tunnel writer is shut down and the uplink joined, the loop goes on, and a
      further record of the server is delivered. */
  lemma {:induction false} HalfCloseKeepsDraining() returns (inputs: seq<Input>)
    ensures var n := Run(Start(Client, 0, 10, 0), inputs);
            && n.enc.pc == Finished(Completed) && n.relay.encryptJoined && n.relay.exit.Running?
            && n.dec.output == [7]
  {
    var n0 := Start(Client, 0, 10, 0);
    var made := Sealed([7], seq(17, _ => 0));
    var log: Log := map[(Key(0, Server), 0) := made];
    var ended := UplinkEnds(n0);
    var n := Run(n0, ended);
    hide Run;
    var more := ReadRecord(n, log, made);
    RunAppend(n0, ended, more);
    inputs := ended + more;
    assert n.dec.output + made.plain == made.plain;
  }

  // ------------------------------------------------- the loop as it is written

  /** Steps of the tasks and of the environment leave the loop where it is. */
  lemma LoopUntouched(n: Node, log: Log, l: Label)
    requires !l.Poll? && !l.Activity? && !l.IdleFires? && !l.Shutdown?
    ensures var r := Step(n, log, l).0.relay; r == n.relay.(token := r.token)
  {
  }

  lemma PollEffect(n: Node, log: Log, task: Task)
    requires n.relay.exit.Running? && !Joined(n, Deciding(n.side))
    ensures var m := Step(n, log, Poll(task)).0;
            if !PcOf(n, task).Finished? || (task != Deciding(n.side) && Joined(n, task)) then m == n
            else
              && m.relay.deadline == n.relay.deadline
              && Joined(m, task) && (forall other :: other != task ==> Joined(m, other) == Joined(n, other))
              && m.relay.exit == match PcOf(n, task).result
                                 case Completed => if task == Deciding(n.side) then ReturnedOk else Running
                                 case Failed(reason) => TaskFailed(reason)
                                 case Panicked => TaskPanicked
                                 case Cancelled => TaskPanicked
  {
  }

  lemma OtherBranches(n: Node, log: Log, l: Label)
    requires n.relay.exit.Running? && (l.Activity? || l.IdleFires? || l.Shutdown?)
    ensures var r := Step(n, log, l).0.relay;
            && r.encryptJoined == n.relay.encryptJoined && r.decryptJoined == n.relay.decryptJoined
            && r.deadline == (if l.Activity? && n.relay.token then n.now + n.idle else n.relay.deadline)
            && r.exit == (if l.IdleFires? && n.now >= n.relay.deadline then IdleTimeout
                          else if l.Shutdown? then ShutdownRequested else Running)
  {
  }

  /** The loop's own variables stand for what the machine keeps. */
  predicate Stands(n: Node, complete: bool, deadline: nat, exit: Exit) {
    && n.relay.exit == exit
    && (exit.Running? ==>
        n.relay.deadline == deadline && !Joined(n, Deciding(n.side)) && Joined(n, Guarded(n.side)) == complete)
  }

  function Guarded(side: Side): Task {
    if side == Client then EncryptTask else DecryptTask
  }

  /** One turn of the loop: the select! branch that was taken, if the step was
      one of the loop's own. */
  method Select(n: Node, log: Log, act: Label, complete: bool, deadline: nat)
    returns (complete': bool, deadline': nat, exit: Exit)
    requires Stands(n, complete, deadline, Running)
    ensures Stands(Step(n, log, act).0, complete', deadline', exit)
  {
    complete', deadline', exit := complete, deadline, Running;
    hide Step;
    SideStays(n, log, act);
    match act {
      case Poll(task) =>
        PollEffect(n, log, task);
        if PcOf(n, task).Finished? && (task == Deciding(n.side) || !complete) {
          complete' := complete || task != Deciding(n.side);
          match PcOf(n, task).result {
            case Completed => exit := if task == Deciding(n.side) then ReturnedOk else Running;
            case Failed(reason) => exit := TaskFailed(reason);
            case _ => exit := TaskPanicked;
          }
        }
      case Activity =>
        OtherBranches(n, log, act);
        deadline' := if n.relay.token then n.now + n.idle else deadline;
      case IdleFires =>
        OtherBranches(n, log, act);
        exit := if n.now >= deadline then IdleTimeout else Running;
      case Shutdown =>
        OtherBranches(n, log, act);
        exit := ShutdownRequested;
      case _ =>
        LoopUntouched(n, log, act);
    }
  }

  lemma StartStands(side: Side, session: nat, idle: nat, now: nat)
    ensures Stands(Start(side, session, idle, now), false, now + idle, Running)
    ensures Start(side, session, idle, now).relay.exit.Running?
  {
  }

  /** The loop was still running after every shorter part of the schedule. */
  predicate RunningBefore(start: Node, inputs: seq<Input>, steps: nat)
    requires steps <= |inputs|
  {
    forall k :: 0 <= k < steps ==> Run(start, inputs[..k]).relay.exit.Running?
  }

  lemma OneMore(start: Node, inputs: seq<Input>, steps: nat)
    requires steps < |inputs| && RunningBefore(start, inputs, steps)
    requires Run(start, inputs[..steps]).relay.exit.Running?
    ensures RunningBefore(start, inputs, steps + 1)
    ensures Run(start, inputs[..steps + 1]) ==
            Step(Run(start, inputs[..steps]), inputs[steps].log, inputs[steps].act).0
  {
    hide Step;
    assert inputs[..steps + 1][..steps] == inputs[..steps];
  }

  lemma StandsExit(n: Node, complete: bool, deadline: nat, exit: Exit)
    requires Stands(n, complete, deadline, exit)
    ensures n.relay.exit == exit
  {
  }

  /** The relay function with its own variables: the completion flag that guards
      one branch, the timer, and the result it breaks out with. `inputs` says
      which steps the tasks, the clock and the network make in between, and
      which branch select! takes when. It leaves at the same moment and in the
      same way as the machine, and makes the abort calls in the same cases. */
  method Relay(side: Side, session: nat, idle: nat, now: nat, inputs: seq<Input>)
    returns (exit: Exit, aborted: bool, steps: nat)
    ensures steps <= |inputs|
    ensures var n := Run(Start(side, session, idle, now), inputs[..steps]);
            n.relay.exit == exit && n.relay.aborting == aborted
    ensures RunningBefore(Start(side, session, idle, now), inputs, steps)
    ensures exit.Running? ==> steps == |inputs|
  {
    ghost var start := Start(side, session, idle, now);
    var world := Start(side, session, idle, now);
    var complete, deadline: nat := false, now + idle;
    assert inputs[..0] == [] && world == Run(start, []) && RunningBefore(start, inputs, 0);
    exit, steps := Running, 0;
    StartStands(side, session, idle, now);
    hide Inv, Step, Stands, Start, Run, RunningBefore;
    while steps < |inputs| && exit.Running?
      invariant steps <= |inputs| && world == Run(start, inputs[..steps])
      invariant Stands(world, complete, deadline, exit) && world.relay.exit == exit
      invariant RunningBefore(start, inputs, steps)
    {
      var input := inputs[steps];
      OneMore(start, inputs, steps);
      complete, deadline, exit := Select(world, input.log, input.act, complete, deadline);
      world := Step(world, input.log, input.act).0;
      StandsExit(world, complete, deadline, exit);
      steps := steps + 1;
    }
    // A panicked task makes the function return past the two abort calls.
    aborted := !exit.Running? && !exit.TaskPanicked?;
    assert Inv(world) by {
      RunKeepsInv(side, session, idle, now, inputs[..steps]);
    }
    InvMeansAborting(world);
  }

  lemma InvMeansAborting(n: Node)
    requires Inv(n)
    ensures n.relay.aborting <==> !n.relay.exit.Running? && !n.relay.exit.TaskPanicked?
  {
  }

  // --------------------------------------------------------- after the loop

  predicate BothFinished(n: Node) {
    n.enc.pc.Finished? && n.dec.pc.Finished?
  }

  /** Finished tasks never move again: no byte is read, sealed, opened, written
      or counted any more. */
  lemma {:induction false} FinishedIsFinal(n: Node, inputs: seq<Input>)
    requires BothFinished(n)
    ensures var m := Run(n, inputs);
            m.enc == n.enc && m.dec == n.dec && m.cell == n.cell && m.lastRecord == n.lastRecord
  {
    if inputs != [] {
      FinishedIsFinal(n, inputs[..|inputs| - 1]);
    }
  }

  lemma {:induction false} ExitStays(n: Node, inputs: seq<Input>)
    requires !n.relay.exit.Running?
    ensures Run(n, inputs).relay.exit == n.relay.exit && Run(n, inputs).relay.aborting == n.relay.aborting
  {
    if inputs != [] {
      ExitStays(n, inputs[..|inputs| - 1]);
    }
  }

  /** After the loop has ended both tasks are asked to stop if and only if it
      did not end through a panicked task. When they are asked, then at whatever
      later moment the runtime cancels them, what they did in between is all
      they ever do. */
  lemma {:induction false} AbortStopsRelaying(side: Side, session: nat, idle: nat, now: nat,
                           inputs: seq<Input>, between: seq<Input>, later: seq<Input>)
    requires !Run(Start(side, session, idle, now), inputs).relay.exit.Running?
    ensures var n := Run(Start(side, session, idle, now), inputs);
            && (n.relay.aborting <==> !n.relay.exit.TaskPanicked?)
            && (n.relay.aborting ==>
                  var last := Run(n, between);
                  var cancelled := Run(last, [Input(Cancel(EncryptTask), map[]), Input(Cancel(DecryptTask), map[])]);
                  var m := Run(cancelled, later);
                  && BothFinished(cancelled) && Quiet(last, cancelled)
                  && m.enc == cancelled.enc && m.dec == cancelled.dec && Quiet(last, m))
  {
    var n := Run(Start(side, session, idle, now), inputs);
    RunKeepsInv(side, session, idle, now, inputs);
    var a, b := Input(Cancel(EncryptTask), map[]), Input(Cancel(DecryptTask), map[]);
    ExitStays(n, between);
    TwoSteps(Run(n, between), a, b);
    if n.relay.aborting {
      FinishedIsFinal(Run(Run(n, between), [a, b]), later);
    }
  }

  /** From one state to a later one no byte was taken, written, consumed or
      delivered, no record counted, and no task completed. */
  predicate Quiet(n: Node, m: Node) {
    && m.enc.input == n.enc.input && m.enc.written == n.enc.written
    && m.dec.consumed == n.dec.consumed && m.dec.output == n.dec.output
    && m.lastRecord == n.lastRecord
    && (m.enc.pc == Finished(Completed) <==> n.enc.pc == Finished(Completed))
    && (m.dec.pc == Finished(Completed) <==> n.dec.pc == Finished(Completed))
  }

  /** An encrypting task that is not finished can still do something. */
  lemma {:induction false} EncryptCanAct(n: Node) returns (later: seq<Input>)
    requires EncInv(n.enc) && n.lastRecord <= n.now && !n.enc.pc.Finished?
    ensures !Quiet(n, Run(n, later))
  {
    var tick := Input(Tick(1), map[]);
    var i := match n.enc.pc
             case Reading => Input(EncRead([7], seq(17, _ => 0)), map[])
             case Writing => Input(EncWrite(1), map[])
             case Flushing => Input(EncFlush, map[])
             case _ => Input(EncShutdown, map[]);
    later := [tick, i];
    TwoSteps(n, tick, i);
    hide Run, Seal;
    assert Step(n, map[], tick.act).0 == n.(now := n.now + 1);
    if n.enc.pc.Reading? {
      assert |n.enc.input + [7]| == |n.enc.input| + 1;
    } else if n.enc.pc.Writing? {
      assert |n.enc.written + n.enc.rest[..1]| == |n.enc.written| + 1;
    }
  }

  /** And so can a decrypting task. */
  lemma {:induction false} DecryptCanAct(n: Node) returns (later: seq<Input>)
    requires DecInv(n.dec) && RestStands(n.dec.pc, n.dec.partial) && n.lastRecord <= n.now && !n.dec.pc.Finished?
    ensures !Quiet(n, Run(n, later))
  {
    var tick := Input(Tick(1), map[]);
    var i := match n.dec.pc
             case Reading => Input(DecRead([0]), map[])
             case Writing => Input(DecWrite(1), map[])
             case Flushing => Input(DecFlush, map[])
             case _ => Input(DecShutdown, map[]);
    later := [tick, i];
    TwoSteps(n, tick, i);
    hide Run, Open;
    assert Step(n, map[], tick.act).0 == n.(now := n.now + 1);
    if n.dec.pc.Reading? {
      assert 1 <= Want(n.dec.partial);
      assert |n.dec.consumed + [0]| == |n.dec.consumed| + 1;
    } else if n.dec.pc.Writing? {
      assert |n.dec.output + n.dec.rest[..1]| == |n.dec.output| + 1;
    }
  }

  /** Exactly when an endpoint has fallen silent: in every reachable state, after
      abort() or not, no continuation relays, counts or completes anything iff
      both tasks are finished. */
  lemma {:induction false} SilentIff(side: Side, session: nat, idle: nat, now: nat, inputs: seq<Input>)
    ensures var n := Run(Start(side, session, idle, now), inputs);
            (forall later :: Quiet(n, Run(n, later))) <==> BothFinished(n)
  {
    var n := Run(Start(side, session, idle, now), inputs);
    RunKeepsInv(side, session, idle, now, inputs);
    var frames := RunReads(side, session, idle, now, inputs);
    if BothFinished(n) {
      forall later
        ensures Quiet(n, Run(n, later))
      {
        FinishedIsFinal(n, later);
      }
    } else if !n.enc.pc.Finished? {
      var later := EncryptCanAct(n);
      assert !Quiet(n, Run(n, later));
    } else {
      var later := DecryptCanAct(n);
      assert !Quiet(n, Run(n, later));
    }
  }

  /** abort() alone does not silence: the loop has ended by a shutdown, both tasks
      have been asked to stop, and the uplink still takes a byte, seals it and
      writes a whole record before its cancellation takes effect. */
  lemma {:induction false} AbortedTaskMayStillRelay() returns (before: seq<Input>, after: seq<Input>)
    ensures var n := Run(Start(Client, 0, 10, 0), before);
            var m := Run(n, after);
            && n.relay.exit.ShutdownRequested? && n.relay.aborting && n.enc.written == []
            && m.relay.aborting && m.enc.chunks == [[7]] && |m.enc.written| == 21
  {
    var n0 := Start(Client, 0, 10, 0);
    var stop := Input(Shutdown, map[]);
    before := [stop];
    OneStep(n0, stop);
    var n := Run(n0, before);
    hide Run;
    assert n == n0.(relay := Leave(n0.relay, ShutdownRequested));
    hide Step;
    after := OneRecord(n, [7]);
    assert n.enc.chunks + [[7]] == [[7]];
  }

  /** After a panic exit no later step ever cancels the surviving task. */
  lemma {:induction false} PanicExitNeverCancels(n: Node, inputs: seq<Input>, task: Task)
    requires n.relay.exit.TaskPanicked? && !n.relay.aborting && !PcOf(n, task).Finished?
    ensures PcOf(Run(n, inputs), task) != Finished(Cancelled)
  {
    hide Seal, Open;
    if inputs != [] {
      var before := inputs[..|inputs| - 1];
      PanicExitNeverCancels(n, before, task);
      ExitStays(n, before);
    }
  }

  /** A concrete run in which the relay has returned, because its downlink task
      panicked, and its uplink task still seals and writes a whole record. */
  lemma PanicExitLeavesATaskRelaying()
    ensures exists before, after ::
              var n := Run(Start(Client, 0, 10, 0), before);
              n.relay.exit.TaskPanicked? && n.enc.chunks == [] &&
              Run(n, after).enc.chunks == [[7]] && |Run(n, after).enc.written| == 21
  {
    var n0 := Start(Client, 0, 10, 0);
    var panic, poll := Input(Panic(DecryptTask, false), map[]), Input(Poll(DecryptTask), map[]);
    TwoSteps(n0, panic, poll);
    hide Run;
    var n := Run(n0, [panic, poll]);
    assert n.relay.exit.TaskPanicked? && n.cell == n0.cell && n.enc == n0.enc;
    hide Step;
    var after := OneRecord(n, [7]);
    assert [] + [[7]] == [[7]];
    assert Run(n, after).enc.chunks == [[7]] && |Run(n, after).enc.written| == 21;
  }
}
