/** The accept loop, its semaphore and the shared metrics of both binaries.
    Every atomic operation is one step, and the steps of the accept loop and of
    all sessions interleave freely. */
module Accounting {
  import opened Basics

  datatype CloseReason = Shutdown | UnauthorizedClient | DecryptFailed | DestinationConnectFailed | OtherReason

  /** A session task. Closing(k) has performed the first k operations of
      connection_closed; the last step drops the semaphore permit. */
  datatype Phase = Running | Closing(done: nat) | Closed | Panicked

  /** A session with its telemetry. The three `saw` fields are what the close
      sequence loaded from the telemetry. */
  datatype Session = Session(id: nat, handshaken: bool, bytesIn: nat, bytesOut: nat,
                             phase: Phase, reason: CloseReason, duration: nat,
                             sawHandshaken: bool, sawIn: nat, sawOut: nat)

  datatype Metrics = Metrics(active: nat, total: nat, nextId: nat, success: nat, failure: nat,
                             unauthorized: nat, decrypt: nat, destination: nat,
                             bytesIn: nat, bytesOut: nat, duration: nat)

  const ZERO := Metrics(0, 0, 0, 0, 0, 0, 0, 0, 0, 0, 0)

  function FetchSubOne(counter: nat): nat {
    (counter + (TWO_64 - 1)) % TWO_64
  }

  const CLOSE_OPS: nat := 11

  /** Operation number `done` of connection_closed. */
  function CloseOp(m: Metrics, s: Session): (Metrics, Session)
    requires s.phase.Closing?
  {
    var k, next := s.phase.done, s.(phase := Closing(s.phase.done + 1));
    if k == 0 then (m.(active := FetchSubOne(m.active)), next)
    else if k == 1 then (m, next.(sawHandshaken := s.handshaken))
    else if k == 2 then
      (if s.sawHandshaken then m.(success := FetchAdd(m.success, 1))
       else if s.reason != Shutdown then m.(failure := FetchAdd(m.failure, 1))
       else m, next)
    else if k == 3 then (if s.reason == UnauthorizedClient then m.(unauthorized := FetchAdd(m.unauthorized, 1))
                         else m, next)
    else if k == 4 then (if s.reason == DecryptFailed then m.(decrypt := FetchAdd(m.decrypt, 1)) else m, next)
    else if k == 5 then (if s.reason == DestinationConnectFailed then m.(destination := FetchAdd(m.destination, 1))
                         else m, next)
    else if k == 6 then (m, next.(sawIn := s.bytesIn))
    else if k == 7 then (m.(bytesIn := FetchAdd(m.bytesIn, s.sawIn)), next)
    else if k == 8 then (m, next.(sawOut := s.bytesOut))
    else if k == 9 then (m.(bytesOut := FetchAdd(m.bytesOut, s.sawOut)), next)
    else if k == 10 then (m.(duration := FetchAdd(m.duration, s.duration)), next)
    else (m, s)
  }

  // ------------------------------------------------------------- the machine

  /** `opening` counts what the accept loop has done for the connection it is
      admitting: permit taken, active counted, total counted. */
  datatype Books = Books(max: nat, available: nat, opening: nat, stopping: bool, m: Metrics, sessions: seq<Session>)

  datatype Event =
    | Accept
    | OpenStep
    | Stop
    | HandshakeDone(i: nat)
    | Move(i: nat, inward: nat, outward: nat)
    | Finish(i: nat, reason: CloseReason, duration: nat)
    | CloseStep(i: nat)
    | Panic(i: nat)

  function NewSession(id: nat): Session {
    Session(id, false, 0, 0, Running, OtherReason, 0, false, 0, 0)
  }

  function Next(b: Books, e: Event): Books {
    match e
    case Accept =>
      if b.stopping || b.opening != 0 || b.available == 0 then b
      else b.(available := b.available - 1, opening := 1)
    case OpenStep =>
      if b.opening == 1 then b.(opening := 2, m := b.m.(active := FetchAdd(b.m.active, 1)))
      else if b.opening == 2 then b.(opening := 3, m := b.m.(total := FetchAdd(b.m.total, 1)))
      else if b.opening == 3 then
        b.(opening := 0, m := b.m.(nextId := FetchAdd(b.m.nextId, 1)),
           sessions := b.sessions + [NewSession(FetchAdd(b.m.nextId, 1))])
      else b
    case Stop =>
      if b.opening == 0 then b.(stopping := true) else b
    case HandshakeDone(i) =>
      if i < |b.sessions| && b.sessions[i].phase.Running? then
        b.(sessions := b.sessions[i := b.sessions[i].(handshaken := true)]) else b
    case Move(i, inward, outward) =>
      if i < |b.sessions| then
        var s := b.sessions[i];
        b.(sessions := b.sessions[i := s.(bytesIn := FetchAdd(s.bytesIn, inward),
                                          bytesOut := FetchAdd(s.bytesOut, outward))])
      else b
    case Finish(i, reason, duration) =>
      if i < |b.sessions| && b.sessions[i].phase.Running? then
        b.(sessions := b.sessions[i := b.sessions[i].(phase := Closing(0), reason := reason, duration := duration)])
      else b
    case CloseStep(i) =>
      if i >= |b.sessions| || !b.sessions[i].phase.Closing? then b
      else if b.sessions[i].phase.done >= CLOSE_OPS then
        b.(available := b.available + 1, sessions := b.sessions[i := b.sessions[i].(phase := Closed)])
      else
        var (m, s) := CloseOp(b.m, b.sessions[i]);
        b.(m := m, sessions := b.sessions[i := s])
    case Panic(i) =>
      if i < |b.sessions| && b.sessions[i].phase.Running? then
        b.(available := b.available + 1, sessions := b.sessions[i := b.sessions[i].(phase := Panicked)])
      else b
  }

  function Run(b: Books, events: seq<Event>): Books {
    if events == [] then b else Next(Run(b, events[..|events| - 1]), events[|events| - 1])
  }

  function Begin(max: nat): Books {
    Books(max, max, 0, false, ZERO, [])
  }

  // ------------------------------------- what each session owes each counter

  predicate Past(s: Session, k: nat) {
    s.phase.Closed? || (s.phase.Closing? && s.phase.done >= k)
  }

  function One(b: bool): nat { if b then 1 else 0 }

  function Holds(s: Session): nat { One(s.phase.Running? || s.phase.Closing?) }
  function Active(s: Session): nat { One(s.phase.Running? || s.phase.Panicked? || s.phase == Closing(0)) }
  function Succeeded(s: Session): nat { One(Past(s, 3) && s.sawHandshaken) }
  function Failed(s: Session): nat { One(Past(s, 3) && !s.sawHandshaken && s.reason != Shutdown) }
  function Unauthorized(s: Session): nat { One(Past(s, 4) && s.reason == UnauthorizedClient) }
  function Undecryptable(s: Session): nat { One(Past(s, 5) && s.reason == DecryptFailed) }
  function Unconnected(s: Session): nat { One(Past(s, 6) && s.reason == DestinationConnectFailed) }
  function CountedIn(s: Session): nat { if Past(s, 8) then s.sawIn else 0 }
  function CountedOut(s: Session): nat { if Past(s, 10) then s.sawOut else 0 }
  function CountedTime(s: Session): nat { if Past(s, 11) then s.duration else 0 }

  function Sum(f: Session -> nat, sessions: seq<Session>): nat {
    if sessions == [] then 0 else Sum(f, sessions[..|sessions| - 1]) + f(sessions[|sessions| - 1])
  }

  lemma {:induction false} SumUpdate(f: Session -> nat, sessions: seq<Session>, i: nat, s: Session)
    requires i < |sessions|
    ensures Sum(f, sessions[i := s]) + f(sessions[i]) == Sum(f, sessions) + f(s)
  {
    var last := |sessions| - 1;
    if i == last {
      assert sessions[i := s][..last] == sessions[..last];
    } else {
      assert sessions[i := s][..last] == sessions[..last][i := s];
      SumUpdate(f, sessions[..last], i, s);
    }
  }

  lemma SumSnoc(f: Session -> nat, sessions: seq<Session>, s: Session)
    ensures Sum(f, sessions + [s]) == Sum(f, sessions) + f(s)
  {
    assert (sessions + [s])[..|sessions|] == sessions;
  }

  /** A counter that equals a sum modulo the wrap keeps doing so. */
  predicate Tracks(counter: nat, f: Session -> nat, sessions: seq<Session>, extra: nat) {
    counter == (Sum(f, sessions) + extra) % TWO_64
  }

  lemma AddMod(n: nat, k: nat)
    ensures FetchAdd(n % TWO_64, k) == (n + k) % TWO_64
  {
  }

  lemma SubMod(n: nat)
    requires n > 0
    ensures FetchSubOne(n % TWO_64) == (n - 1) % TWO_64
  {
  }

  lemma TracksUpdate(counter: nat, f: Session -> nat, sessions: seq<Session>, extra: nat, i: nat, s: Session)
    requires Tracks(counter, f, sessions, extra) && i < |sessions|
    ensures f(s) == f(sessions[i]) ==> Tracks(counter, f, sessions[i := s], extra)
    ensures f(s) >= f(sessions[i]) ==> Tracks(FetchAdd(counter, f(s) - f(sessions[i])), f, sessions[i := s], extra)
    ensures f(s) + 1 == f(sessions[i]) ==> Tracks(FetchSubOne(counter), f, sessions[i := s], extra)
  {
    hide FetchAdd, FetchSubOne, Sum;
    SumUpdate(f, sessions, i, s);
    var sum := Sum(f, sessions) + extra;
    if f(s) >= f(sessions[i]) {
      AddMod(sum, f(s) - f(sessions[i]));
    } else if f(s) + 1 == f(sessions[i]) {
      SubMod(sum);
    }
  }

  ghost predicate Inv(b: Books) {
    b.opening <= 3 && Permits(b) && Gauge(b) && Opened(b) && Ids(b.sessions) && Bounded(b.sessions) &&
    Totals(b.m, b.sessions)
  }

  ghost predicate Permits(b: Books) {
    b.available + Sum(Holds, b.sessions) + One(b.opening > 0) == b.max
  }

  ghost predicate Gauge(b: Books) {
    Tracks(b.m.active, Active, b.sessions, One(b.opening >= 2))
  }

  predicate Opened(b: Books) {
    b.m.total == (|b.sessions| + One(b.opening >= 3)) % TWO_64 && b.m.nextId == |b.sessions| % TWO_64
  }

  predicate Ids(sessions: seq<Session>) {
    forall i :: 0 <= i < |sessions| ==> sessions[i].id == (i + 1) % TWO_64
  }

  predicate Bounded(sessions: seq<Session>) {
    forall s :: s in sessions && s.phase.Closing? ==> s.phase.done <= CLOSE_OPS
  }

  ghost predicate Totals(m: Metrics, sessions: seq<Session>) {
    && Tracks(m.success, Succeeded, sessions, 0)
    && Tracks(m.failure, Failed, sessions, 0)
    && Tracks(m.unauthorized, Unauthorized, sessions, 0)
    && Tracks(m.decrypt, Undecryptable, sessions, 0)
    && Tracks(m.destination, Unconnected, sessions, 0)
    && Tracks(m.bytesIn, CountedIn, sessions, 0)
    && Tracks(m.bytesOut, CountedOut, sessions, 0)
    && Tracks(m.duration, CountedTime, sessions, 0)
  }

  /** The totals move from one session's old contribution to its new one. */
  ghost predicate Moved(m: Metrics, m': Metrics, s: Session, s': Session) {
    && Step(m.success, m'.success, Succeeded(s), Succeeded(s'))
    && Step(m.failure, m'.failure, Failed(s), Failed(s'))
    && Step(m.unauthorized, m'.unauthorized, Unauthorized(s), Unauthorized(s'))
    && Step(m.decrypt, m'.decrypt, Undecryptable(s), Undecryptable(s'))
    && Step(m.destination, m'.destination, Unconnected(s), Unconnected(s'))
    && Step(m.bytesIn, m'.bytesIn, CountedIn(s), CountedIn(s'))
    && Step(m.bytesOut, m'.bytesOut, CountedOut(s), CountedOut(s'))
    && Step(m.duration, m'.duration, CountedTime(s), CountedTime(s'))
  }

  predicate Step(counter: nat, counter': nat, before: nat, after: nat) {
    || (after == before && counter' == counter)
    || (after >= before && counter' == FetchAdd(counter, after - before))
  }

  lemma StepTracks(counter: nat, counter': nat, f: Session -> nat, sessions: seq<Session>, i: nat, s: Session)
    requires Tracks(counter, f, sessions, 0) && i < |sessions| && Step(counter, counter', f(sessions[i]), f(s))
    ensures Tracks(counter', f, sessions[i := s], 0)
  {
    hide Sum, FetchAdd;
    TracksUpdate(counter, f, sessions, 0, i, s);
  }

  lemma TotalsUpdate(m: Metrics, m': Metrics, sessions: seq<Session>, i: nat, s: Session)
    requires Totals(m, sessions) && i < |sessions| && Moved(m, m', sessions[i], s)
    ensures Totals(m', sessions[i := s])
  {
    hide Tracks, Step, Past;
    StepTracks(m.success, m'.success, Succeeded, sessions, i, s);
    StepTracks(m.failure, m'.failure, Failed, sessions, i, s);
    StepTracks(m.unauthorized, m'.unauthorized, Unauthorized, sessions, i, s);
    StepTracks(m.decrypt, m'.decrypt, Undecryptable, sessions, i, s);
    StepTracks(m.destination, m'.destination, Unconnected, sessions, i, s);
    StepTracks(m.bytesIn, m'.bytesIn, CountedIn, sessions, i, s);
    StepTracks(m.bytesOut, m'.bytesOut, CountedOut, sessions, i, s);
    StepTracks(m.duration, m'.duration, CountedTime, sessions, i, s);
  }

  /** Each operation of the close sequence pays exactly what it owes. */
  lemma CloseOpPays(m: Metrics, s: Session)
    requires s.phase.Closing? && s.phase.done < CLOSE_OPS
    ensures var (m', s') := CloseOp(m, s);
            && Moved(m, m', s, s') && Holds(s') == Holds(s) && s'.id == s.id
            && m'.total == m.total && m'.nextId == m.nextId
            && s'.handshaken == s.handshaken && s'.bytesIn == s.bytesIn && s'.bytesOut == s.bytesOut
            && s'.reason == s.reason && s'.duration == s.duration && s'.phase == Closing(s.phase.done + 1)
            && s'.sawHandshaken == (if s.phase.done == 1 then s.handshaken else s.sawHandshaken)
            && s'.sawIn == (if s.phase.done == 6 then s.bytesIn else s.sawIn)
            && s'.sawOut == (if s.phase.done == 8 then s.bytesOut else s.sawOut)
            && (if s.phase.done == 0 then Active(s') + 1 == Active(s) && m'.active == FetchSubOne(m.active)
                else Active(s') == Active(s) && m'.active == m.active)
  {
    hide FetchAdd, FetchSubOne;
  }

  lemma TotalsSnoc(m: Metrics, sessions: seq<Session>, id: nat)
    requires Totals(m, sessions)
    ensures Totals(m, sessions + [NewSession(id)])
  {
    var s := NewSession(id);
    SumSnoc(Succeeded, sessions, s);
    SumSnoc(Failed, sessions, s);
    SumSnoc(Unauthorized, sessions, s);
    SumSnoc(Undecryptable, sessions, s);
    SumSnoc(Unconnected, sessions, s);
    SumSnoc(CountedIn, sessions, s);
    SumSnoc(CountedOut, sessions, s);
    SumSnoc(CountedTime, sessions, s);
  }

  lemma IdsSnoc(sessions: seq<Session>, id: nat)
    requires Ids(sessions) && id == (|sessions| + 1) % TWO_64
    ensures Ids(sessions + [NewSession(id)])
  {
  }

  lemma OpenKeepsPermits(b: Books)
    requires b.opening <= 3 && Permits(b)
    ensures Permits(Next(b, OpenStep))
  {
    SumSnoc(Holds, b.sessions, NewSession(FetchAdd(b.m.nextId, 1)));
  }

  lemma OpenKeepsGauge(b: Books)
    requires b.opening <= 3 && Gauge(b)
    ensures Gauge(Next(b, OpenStep))
  {
    hide FetchAdd, Sum;
    SumSnoc(Active, b.sessions, NewSession(FetchAdd(b.m.nextId, 1)));
    AddMod(Sum(Active, b.sessions), 1);
  }

  lemma OpenKeepsOpened(b: Books)
    requires b.opening <= 3 && Opened(b)
    ensures Opened(Next(b, OpenStep))
  {
    hide FetchAdd;
    AddMod(|b.sessions|, 1);
  }

  lemma {:induction false} OpenKeepsRest(b: Books)
    requires b.opening <= 3 && Opened(b) && Ids(b.sessions) && Bounded(b.sessions) && Totals(b.m, b.sessions)
    ensures var b' := Next(b, OpenStep); Ids(b'.sessions) && Bounded(b'.sessions) && Totals(b'.m, b'.sessions)
  {
    AddMod(|b.sessions|, 1);
    if b.opening == 3 {
      IdsSnoc(b.sessions, FetchAdd(b.m.nextId, 1));
      TotalsSnoc(b.m, b.sessions, FetchAdd(b.m.nextId, 1));
    }
  }

  predicate OfSession(e: Event) {
    e.HandshakeDone? || e.Move? || e.Finish? || e.CloseStep? || e.Panic?
  }

  lemma SessionKeepsTotals(b: Books, e: Event)
    requires Inv(b)
    requires OfSession(e)
    ensures Totals(Next(b, e).m, Next(b, e).sessions)
  {
    var i, b' := e.i, Next(b, e);
    if b' != b {
      if e.CloseStep? && b.sessions[i].phase.done < CLOSE_OPS {
        CloseOpPays(b.m, b.sessions[i]);
      }
      TotalsUpdate(b.m, b'.m, b.sessions, i, b'.sessions[i]);
    }
  }

  lemma SessionKeepsPermits(b: Books, e: Event)
    requires Permits(b) && OfSession(e)
    ensures Permits(Next(b, e))
  {
    hide Sum, FetchAdd, FetchSubOne;
    var b' := Next(b, e);
    if b' != b {
      SumUpdate(Holds, b.sessions, e.i, b'.sessions[e.i]);
    }
  }

  lemma SessionKeepsGauge(b: Books, e: Event)
    requires Gauge(b) && OfSession(e)
    ensures Gauge(Next(b, e))
  {
    var b' := Next(b, e);
    if b' != b {
      if e.CloseStep? && b.sessions[e.i].phase.done < CLOSE_OPS {
        CloseOpPays(b.m, b.sessions[e.i]);
      }
      TracksUpdate(b.m.active, Active, b.sessions, One(b.opening >= 2), e.i, b'.sessions[e.i]);
    }
  }

  lemma SessionKeepsOpened(b: Books, e: Event)
    requires Opened(b) && Ids(b.sessions) && Bounded(b.sessions) && OfSession(e)
    ensures var b' := Next(b, e); Opened(b') && Ids(b'.sessions) && Bounded(b'.sessions) && b'.opening == b.opening
  {
    if e.CloseStep? && e.i < |b.sessions| && b.sessions[e.i].phase.Closing? && b.sessions[e.i].phase.done < CLOSE_OPS {
      CloseOpPays(b.m, b.sessions[e.i]);
    }
  }

  lemma NextKeepsInv(b: Books, e: Event)
    requires Inv(b)
    ensures Inv(Next(b, e)) && Next(b, e).max == b.max
  {
    match e
    case Accept =>
    case Stop =>
    case OpenStep =>
      OpenKeepsPermits(b);
      OpenKeepsGauge(b);
      OpenKeepsOpened(b);
      OpenKeepsRest(b);
    case _ =>
      SessionKeepsTotals(b, e);
      SessionKeepsPermits(b, e);
      SessionKeepsGauge(b, e);
      SessionKeepsOpened(b, e);
  }

  lemma BeginInv(max: nat)
    ensures Inv(Begin(max)) && Begin(max).max == max
  {
  }

  lemma {:induction false} RunKeepsBooks(max: nat, events: seq<Event>)
    ensures Inv(Run(Begin(max), events))
    ensures Run(Begin(max), events).max == max
  {
    hide Inv, Next, Begin;
    BeginInv(max);
    if events != [] {
      RunKeepsBooks(max, events[..|events| - 1]);
      NextKeepsInv(Run(Begin(max), events[..|events| - 1]), events[|events| - 1]);
    }
  }

  // ------------------------------------------------------------ main results

  lemma {:induction false} SumMember(f: Session -> nat, sessions: seq<Session>, i: nat)
    requires i < |sessions|
    ensures f(sessions[i]) <= Sum(f, sessions)
  {
    if i < |sessions| - 1 {
      SumMember(f, sessions[..|sessions| - 1], i);
    }
  }

  /** Permits are conserved: those free, those of sessions and the one of the
      connection being admitted are always max_connections together. */
  lemma PermitsConserved(max: nat, events: seq<Event>)
    ensures var b := Run(Begin(max), events);
            b.available + Sum(Holds, b.sessions) + One(b.opening > 0) == max
  {
    RunKeepsBooks(max, events);
  }

  function Stuck(s: Session): nat { One(s.phase.Panicked?) }

  /** What the active gauge is meant to show: running and panicked sessions,
      those on the way to their first close step, and the one being opened. */
  function Live(b: Books): nat {
    Sum(Active, b.sessions) + One(b.opening >= 2)
  }

  /** The gauge is that number in 64 bits, at every moment; it exceeds
      max_connections by at most the sessions that panicked, which stay counted
      for ever; and as long as the number fits, no decrement underflows. */
  lemma ActiveGauge(max: nat, events: seq<Event>, i: nat)
    ensures var b := Run(Begin(max), events);
            && b.m.active == Live(b) % TWO_64
            && b.m.active <= Live(b) <= max + Sum(Stuck, b.sessions)
            && ((forall s :: s in b.sessions ==> !s.phase.Panicked?) ==> b.m.active <= max)
            && (Live(b) < TWO_64 && i < |b.sessions| && b.sessions[i].phase == Closing(0) ==> b.m.active >= 1)
  {
    RunKeepsBooks(max, events);
    GaugeExact(Run(Begin(max), events), i);
  }

  lemma GaugeExact(b: Books, i: nat)
    requires Permits(b) && Gauge(b)
    ensures b.m.active == Live(b) % TWO_64 && b.m.active <= Live(b) <= b.max + Sum(Stuck, b.sessions)
    ensures (forall s :: s in b.sessions ==> !s.phase.Panicked?) ==> b.m.active <= b.max
    ensures Live(b) < TWO_64 && i < |b.sessions| && b.sessions[i].phase == Closing(0) ==> b.m.active >= 1
  {
    ActiveHeldOrStuck(b.sessions);
    if i < |b.sessions| && b.sessions[i].phase == Closing(0) {
      SumMember(Active, b.sessions, i);
    }
    if forall s :: s in b.sessions ==> !s.phase.Panicked? {
      SumSame(Stuck, Nothing, b.sessions);
      SumOfNothing(b.sessions);
    }
  }

  lemma {:induction false} ActiveHeldOrStuck(sessions: seq<Session>)
    ensures Sum(Active, sessions) <= Sum(Holds, sessions) + Sum(Stuck, sessions)
  {
    if sessions != [] {
      ActiveHeldOrStuck(sessions[..|sessions| - 1]);
    }
  }

  /** Connection ids are handed out in order and repeat only after 2^64. */
  lemma IdsDistinct(max: nat, events: seq<Event>, i: nat, j: nat)
    requires i < j < |Run(Begin(max), events).sessions|
    ensures var sessions := Run(Begin(max), events).sessions;
            sessions[i].id == sessions[j].id <==> (j - i) % TWO_64 == 0
  {
    RunKeepsBooks(max, events);
    IdsDiffer(Run(Begin(max), events).sessions, i, j);
  }

  lemma IdsDiffer(sessions: seq<Session>, i: nat, j: nat)
    requires Ids(sessions) && i < j < |sessions|
    ensures sessions[i].id == sessions[j].id <==> (j - i) % TWO_64 == 0
  {
    SameResidue(i + 1, j + 1);
  }

  lemma SameResidue(a: nat, b: nat)
    requires a <= b
    ensures a % TWO_64 == b % TWO_64 <==> (b - a) % TWO_64 == 0
  {
    var q, r := a / TWO_64, (b - a) / TWO_64;
    assert a == q * TWO_64 + a % TWO_64 && b - a == r * TWO_64 + (b - a) % TWO_64;
    if (b - a) % TWO_64 == 0 {
      assert b == (q + r) * TWO_64 + a % TWO_64;
    }
    if a % TWO_64 == b % TWO_64 {
      assert b - a == (b / TWO_64 - q) * TWO_64;
    }
  }

  // --------------------------------------------------- what is always possible

  /** A connection that arrives while nothing else is being admitted gets in iff
      a permit is free and no shutdown was signalled: then it takes one permit,
      is counted, and runs under the next id; otherwise nothing happens. */
  lemma AdmittedIff(b: Books)
    requires b.opening == 0
    ensures var c := Next(Next(Next(Next(b, Accept), OpenStep), OpenStep), OpenStep);
            if b.available > 0 && !b.stopping then
              && c.sessions == b.sessions + [NewSession(FetchAdd(b.m.nextId, 1))] && c.opening == 0
              && c.available == b.available - 1 && c.max == b.max && !c.stopping
              && c.m == b.m.(active := FetchAdd(b.m.active, 1), total := FetchAdd(b.m.total, 1),
                             nextId := FetchAdd(b.m.nextId, 1))
            else c == b
    ensures Next(b, Stop) == b.(stopping := true)
  {
    hide FetchAdd;
  }

  /** One step of a close sequence goes one operation further, the last one gives
      the permit back; no other session notices. */
  lemma CloseAdvances(b: Books, i: nat)
    requires i < |b.sessions| && b.sessions[i].phase.Closing? && b.sessions[i].phase.done <= CLOSE_OPS
    ensures var c, k := Next(b, CloseStep(i)), b.sessions[i].phase.done;
            && |c.sessions| == |b.sessions|
            && (forall j :: 0 <= j < |b.sessions| && j != i ==> c.sessions[j] == b.sessions[j])
            && c.sessions[i].phase == (if k < CLOSE_OPS then Closing(k + 1) else Closed)
            && c.available == b.available + (if k < CLOSE_OPS then 0 else 1)
            && c.opening == b.opening && c.stopping == b.stopping && c.max == b.max
  {
    if b.sessions[i].phase.done < CLOSE_OPS {
      CloseOpPays(b.m, b.sessions[i]);
    }
    hide CloseOp;
  }

  /** Every close sequence, from wherever it stands, can run to its end. */
  lemma {:induction false} CloseCompletes(b: Books, i: nat) returns (events: seq<Event>)
    requires i < |b.sessions| && b.sessions[i].phase.Closing? && b.sessions[i].phase.done <= CLOSE_OPS
    ensures var c := Run(b, events);
            && |c.sessions| == |b.sessions| && c.sessions[i].phase.Closed? && c.available == b.available + 1
            && (forall j :: 0 <= j < |b.sessions| && j != i ==> c.sessions[j] == b.sessions[j])
    decreases CLOSE_OPS - b.sessions[i].phase.done
  {
    var next := Next(b, CloseStep(i));
    CloseAdvances(b, i);
    assert Run(b, []) == b;
    hide Next;
    if b.sessions[i].phase.done == CLOSE_OPS {
      RunSnoc(b, [], CloseStep(i));
      events := [] + [CloseStep(i)];
    } else {
      var rest := CloseCompletes(next, i);
      RunFirst(b, CloseStep(i), rest);
      events := [CloseStep(i)] + rest;
    }
  }

  lemma {:induction false} RunFirst(b: Books, e: Event, rest: seq<Event>)
    ensures Run(b, [e] + rest) == Run(Next(b, e), rest)
  {
    hide Next;
    if rest == [] {
      assert [e] + rest == [e] && [e][..0] == [];
      assert Run(b, []) == b;
    } else {
      var front := rest[..|rest| - 1];
      assert ([e] + rest)[..|rest|] == [e] + front;
      RunFirst(b, e, front);
    }
  }

  // ------------------------------------------ what a session's registers mean

  /** How a session came to its end, as the event that ended it says. */
  datatype Fate = Ongoing | Ended(reason: CloseReason, duration: nat) | Died

  /** What happened to a session in a run, read off the events alone: whether
      its handshake completed, the bytes its copy tasks counted, how many of them
      they counted after the close sequence had loaded the counter, and its end. */
  datatype History = History(handshook: bool, movedIn: nat, movedOut: nat, lateIn: nat, lateOut: nat, fate: Fate)

  const NOTHING_YET := History(false, 0, 0, 0, 0, Ongoing)

  function Recorded(h: History, s: Session, e: Event, i: nat): History {
    if e == HandshakeDone(i) && s.phase.Running? then h.(handshook := true)
    else if e.Move? && e.i == i then
      History(h.handshook, h.movedIn + e.inward, h.movedOut + e.outward,
              h.lateIn + if Past(s, 7) then e.inward else 0,
              h.lateOut + if Past(s, 9) then e.outward else 0, h.fate)
    else if e.Finish? && e.i == i && s.phase.Running? then h.(fate := Ended(e.reason, e.duration))
    else if e == Panic(i) && s.phase.Running? then h.(fate := Died)
    else h
  }

  function HistoryOf(max: nat, events: seq<Event>, i: nat): History {
    if events == [] then NOTHING_YET
    else
      var before := events[..|events| - 1];
      var b := Run(Begin(max), before);
      if i < |b.sessions| then Recorded(HistoryOf(max, before, i), b.sessions[i], events[|events| - 1], i)
      else HistoryOf(max, before, i)
  }

  /** A session's fields against its history: the flag, the two counters and the
      end are what happened, and what the close sequence loaded is the final flag
      and the counters without what came late. */
  predicate Ledger(s: Session, h: History) {
    && FateShows(s, h.fate)
    && s.handshaken == h.handshook
    && s.bytesIn == h.movedIn % TWO_64 && s.bytesOut == h.movedOut % TWO_64
    && (Past(s, 2) ==> s.sawHandshaken == s.handshaken)
    && (if Past(s, 7) then s.bytesIn == (s.sawIn + h.lateIn) % TWO_64 else h.lateIn == 0)
    && (if Past(s, 9) then s.bytesOut == (s.sawOut + h.lateOut) % TWO_64 else h.lateOut == 0)
  }

  predicate FateShows(s: Session, fate: Fate) {
    match fate
    case Ongoing => s.phase.Running?
    case Ended(reason, duration) =>
      (s.phase.Closing? || s.phase.Closed?) && s.reason == reason && s.duration == duration
    case Died => s.phase.Panicked?
  }

  lemma CloseKeepsLedger(m: Metrics, s: Session, h: History)
    requires Ledger(s, h) && s.phase.Closing? && s.phase.done < CLOSE_OPS
    ensures Ledger(CloseOp(m, s).1, h)
  {
    CloseOpPays(m, s);
  }

  lemma MoveKeepsLedger(s: Session, h: History, i: nat, inward: nat, outward: nat)
    requires Ledger(s, h)
    ensures Ledger(s.(bytesIn := FetchAdd(s.bytesIn, inward), bytesOut := FetchAdd(s.bytesOut, outward)),
                   Recorded(h, s, Move(i, inward, outward), i))
  {
    AddMod(h.movedIn, inward);
    AddMod(h.movedOut, outward);
    AddMod(s.sawIn + h.lateIn, inward);
    AddMod(s.sawOut + h.lateOut, outward);
    hide FetchAdd;
  }

  lemma {:induction false} LedgerStep(b: Books, e: Event, i: nat, h: History)
    requires i < |b.sessions| && Bounded(b.sessions) && Ledger(b.sessions[i], h)
    ensures i < |Next(b, e).sessions| && Ledger(Next(b, e).sessions[i], Recorded(h, b.sessions[i], e, i))
  {
    if e == CloseStep(i) && b.sessions[i].phase.Closing? && b.sessions[i].phase.done < CLOSE_OPS {
      CloseKeepsLedger(b.m, b.sessions[i], h);
    } else if e.Move? && e.i == i {
      MoveKeepsLedger(b.sessions[i], h, i, e.inward, e.outward);
    }
  }

  lemma NewSessionStep(b: Books, e: Event, i: nat)
    requires |b.sessions| <= i < |Next(b, e).sessions|
    ensures Ledger(Next(b, e).sessions[i], NOTHING_YET)
  {
  }

  /** In every run each session's registers mean what its history says. */
  lemma {:induction false} LedgersHold(max: nat, events: seq<Event>, i: nat)
    ensures var b := Run(Begin(max), events);
            if i < |b.sessions| then Ledger(b.sessions[i], HistoryOf(max, events, i))
            else HistoryOf(max, events, i) == NOTHING_YET
  {
    if events != [] {
      var before, e := events[..|events| - 1], events[|events| - 1];
      LedgersHold(max, before, i);
      RunKeepsBooks(max, before);
      var b := Run(Begin(max), before);
      hide Ledger, Next, Recorded;
      if i < |b.sessions| {
        LedgerStep(b, e, i, HistoryOf(max, before, i));
      } else if i < |Next(b, e).sessions| {
        NewSessionStep(b, e, i);
      }
    }
  }

  /** In every run: permits, gauge, ids and totals stand for what the sessions
      owe them, and the sessions' registers for what happened to them. */
  lemma {:induction false} RunKeepsInv(max: nat, events: seq<Event>)
    ensures var b := Run(Begin(max), events);
            Inv(b) && forall i :: 0 <= i < |b.sessions| ==> Ledger(b.sessions[i], HistoryOf(max, events, i))
  {
    hide Inv, Ledger, Run, Begin, HistoryOf;
    RunKeepsBooks(max, events);
    forall i | 0 <= i < |Run(Begin(max), events).sessions|
      ensures Ledger(Run(Begin(max), events).sessions[i], HistoryOf(max, events, i))
    {
      LedgersHold(max, events, i);
    }
  }

  // -------------------------------------------------------------- quiescence

  lemma {:induction false} SumOfThree(sessions: seq<Session>)
    ensures Sum(ClosedWell, sessions) + Sum(ClosedBadly, sessions) + Sum(ClosedEarly, sessions) ==
            Sum(ClosedOne, sessions)
  {
    if sessions != [] {
      SumOfThree(sessions[..|sessions| - 1]);
    }
  }

  predicate Quiescent(b: Books) {
    b.opening == 0 && Settled(b.sessions)
  }

  predicate Settled(sessions: seq<Session>) {
    forall s :: s in sessions ==> s.phase.Closed? || s.phase.Panicked?
  }

  function ClosedOne(s: Session): nat { One(s.phase.Closed?) }
  function ClosedWell(s: Session): nat { One(s.phase.Closed? && s.handshaken) }
  function ClosedBadly(s: Session): nat { One(s.phase.Closed? && !s.handshaken && s.reason != Shutdown) }
  function ClosedEarly(s: Session): nat { One(s.phase.Closed? && !s.handshaken && s.reason == Shutdown) }

  /** The final counters of the closed sessions, and what the totals got. */
  function FinalIn(s: Session): nat { if s.phase.Closed? then s.bytesIn else 0 }
  function FinalOut(s: Session): nat { if s.phase.Closed? then s.bytesOut else 0 }

  function Late(max: nat, events: seq<Event>, i: nat, inward: bool): nat {
    if inward then HistoryOf(max, events, i).lateIn else HistoryOf(max, events, i).lateOut
  }

  /** All bytes counted too late for the totals, by the first n sessions. */
  function LateSum(max: nat, events: seq<Event>, n: nat, inward: bool): nat {
    if n == 0 then 0 else LateSum(max, events, n - 1, inward) + Late(max, events, n - 1, inward)
  }

  lemma {:induction false} SumSame(f: Session -> nat, g: Session -> nat, sessions: seq<Session>)
    requires forall s :: s in sessions ==> f(s) == g(s)
    ensures Sum(f, sessions) == Sum(g, sessions)
  {
    if sessions != [] {
      SumSame(f, g, sessions[..|sessions| - 1]);
    }
  }

  lemma AddCongruent(a: nat, b: nat, c: nat, x: nat, y: nat, z: nat)
    requires (a + b) % TWO_64 == c % TWO_64 && (x + y) % TWO_64 == z % TWO_64
    ensures (a + x + (b + y)) % TWO_64 == (c + z) % TWO_64
  {
    AddMod(a + b, x + y);
    AddMod(c, x + y);
    AddMod(x + y, c);
    AddMod(z, c);
  }

  /** One settled session's loaded and late bytes make its final counter. */
  lemma SettledLedger(s: Session, h: History)
    requires Ledger(s, h) && (s.phase.Closed? || s.phase.Panicked?)
    ensures (CountedIn(s) + h.lateIn) % TWO_64 == FinalIn(s) % TWO_64
    ensures (CountedOut(s) + h.lateOut) % TWO_64 == FinalOut(s) % TWO_64
    ensures Succeeded(s) == ClosedWell(s) && Failed(s) == ClosedBadly(s)
  {
  }

  // What a session's events make it count for, once it has settled.
  function EndedWell(h: History): nat { One(h.fate.Ended? && h.handshook) }
  function EndedBadly(h: History): nat { One(h.fate.Ended? && !h.handshook && h.fate.reason != Shutdown) }
  function EndedEarly(h: History): nat { One(h.fate.Ended? && !h.handshook && h.fate.reason == Shutdown) }
  function EndedUnauthorized(h: History): nat { One(h.fate.Ended? && h.fate.reason == UnauthorizedClient) }
  function EndedUndecryptable(h: History): nat { One(h.fate.Ended? && h.fate.reason == DecryptFailed) }
  function EndedUnconnected(h: History): nat { One(h.fate.Ended? && h.fate.reason == DestinationConnectFailed) }
  function EndedTime(h: History): nat { if h.fate.Ended? then h.fate.duration else 0 }

  /** The sum of something over the histories of the first n sessions. */
  function Total(max: nat, events: seq<Event>, f: History -> nat, n: nat): nat {
    if n == 0 then 0 else Total(max, events, f, n - 1) + f(HistoryOf(max, events, n - 1))
  }

  /** The items of the books, by what a session owes them and by what its events
      make it count for. */
  datatype Item = Success | Failure | Early | NotAuthorized | NotDecrypted | NotConnected | Time

  function Owed(item: Item): Session -> nat {
    match item
    case Success => Succeeded
    case Failure => Failed
    case Early => ClosedEarly
    case NotAuthorized => Unauthorized
    case NotDecrypted => Undecryptable
    case NotConnected => Unconnected
    case Time => CountedTime
  }

  function Earned(item: Item): History -> nat {
    match item
    case Success => EndedWell
    case Failure => EndedBadly
    case Early => EndedEarly
    case NotAuthorized => EndedUnauthorized
    case NotDecrypted => EndedUndecryptable
    case NotConnected => EndedUnconnected
    case Time => EndedTime
  }

  lemma SettledCounts(item: Item, s: Session, h: History)
    requires Ledger(s, h) && (s.phase.Closed? || s.phase.Panicked?)
    ensures Owed(item)(s) == Earned(item)(h)
  {
  }

  lemma {:induction false} SettledTotals(max: nat, events: seq<Event>, item: Item, n: nat)
    requires var b := Run(Begin(max), events); n <= |b.sessions| && Settled(b.sessions)
    ensures Sum(Owed(item), Run(Begin(max), events).sessions[..n]) == Total(max, events, Earned(item), n)
  {
    hide Run, Begin, HistoryOf, Ledger, Sum, Owed, Earned;
    var sessions := Run(Begin(max), events).sessions;
    if n == 0 {
      assert sessions[..n] == [];
      SumOfNone(Owed(item));
    } else {
      var front, s := sessions[..n - 1], sessions[n - 1];
      SettledTotals(max, events, item, n - 1);
      LedgersHold(max, events, n - 1);
      SettledCounts(item, s, HistoryOf(max, events, n - 1));
      assert sessions[..n] == front + [s];
      SumSnoc(Owed(item), front, s);
    }
  }

  function CountedOf(inward: bool): Session -> nat { if inward then CountedIn else CountedOut }
  function FinalOf(inward: bool): Session -> nat { if inward then FinalIn else FinalOut }

  lemma SumOfNone(f: Session -> nat)
    ensures Sum(f, []) == 0
  {
  }

  lemma {:induction false} LoadedPlusLate(max: nat, events: seq<Event>, n: nat, inward: bool)
    requires var b := Run(Begin(max), events); n <= |b.sessions| && Settled(b.sessions)
    ensures var sessions := Run(Begin(max), events).sessions[..n];
            (Sum(CountedOf(inward), sessions) + LateSum(max, events, n, inward)) % TWO_64 ==
            Sum(FinalOf(inward), sessions) % TWO_64
  {
    hide Run, Begin, HistoryOf, Ledger, Sum;
    var sessions, f, g := Run(Begin(max), events).sessions, CountedOf(inward), FinalOf(inward);
    if n == 0 {
      assert sessions[..n] == [];
      SumOfNone(f);
      SumOfNone(g);
    } else {
      var front, s := sessions[..n - 1], sessions[n - 1];
      LoadedPlusLate(max, events, n - 1, inward);
      LedgersHold(max, events, n - 1);
      SettledLedger(s, HistoryOf(max, events, n - 1));
      assert sessions[..n] == front + [s];
      SumSnoc(f, front, s);
      SumSnoc(g, front, s);
      AddCongruent(Sum(f, front), LateSum(max, events, n - 1, inward), Sum(g, front),
                   f(s), Late(max, events, n - 1, inward), g(s));
      hide CountedIn, CountedOut, FinalIn, FinalOut, CountedOf, FinalOf, Late;
    }
  }

  lemma AllSettled(max: nat, events: seq<Event>)
    requires Settled(Run(Begin(max), events).sessions)
    ensures var sessions := Run(Begin(max), events).sessions;
            Sum(Succeeded, sessions) == Sum(ClosedWell, sessions) && Sum(Failed, sessions) == Sum(ClosedBadly, sessions)
  {
    hide Run, Begin, HistoryOf, Ledger, Sum;
    var sessions := Run(Begin(max), events).sessions;
    forall s | s in sessions
      ensures Succeeded(s) == ClosedWell(s) && Failed(s) == ClosedBadly(s)
    {
      var i :| 0 <= i < |sessions| && sessions[i] == s;
      LedgersHold(max, events, i);
      SettledLedger(s, HistoryOf(max, events, i));
    }
    SumSame(Succeeded, ClosedWell, sessions);
    SumSame(Failed, ClosedBadly, sessions);
  }

  /** When nothing is in progress the success and failure totals count exactly
      the closed sessions whose handshake did and did not complete (other than
      by shutdown), together all closed sessions; each byte total is short of
      the final counters of the closed sessions by exactly the late bytes; and
      every permit is free again, also those of panicked sessions. */
  lemma {:induction false} QuiescentTotals(max: nat, events: seq<Event>)
    ensures var b := Run(Begin(max), events);
            Quiescent(b) ==>
              && b.m.success == Sum(ClosedWell, b.sessions) % TWO_64
              && b.m.failure == Sum(ClosedBadly, b.sessions) % TWO_64
              && Sum(ClosedWell, b.sessions) + Sum(ClosedBadly, b.sessions) + Sum(ClosedEarly, b.sessions) ==
                 Sum(ClosedOne, b.sessions)
              && (b.m.bytesIn + LateSum(max, events, |b.sessions|, true)) % TWO_64 ==
                 Sum(FinalIn, b.sessions) % TWO_64
              && (b.m.bytesOut + LateSum(max, events, |b.sessions|, false)) % TWO_64 ==
                 Sum(FinalOut, b.sessions) % TWO_64
              && b.m.total == |b.sessions| % TWO_64
              && b.available == max
  {
    hide Gauge, Permits, Ids, Bounded, Sum, Run, Next, Begin;
    var b := Run(Begin(max), events);
    RunKeepsBooks(max, events);
    if Quiescent(b) {
      SettledPermits(b);
      SumOfThree(b.sessions);
      AllSettled(max, events);
      LoadedPlusLate(max, events, |b.sessions|, true);
      LoadedPlusLate(max, events, |b.sessions|, false);
      assert b.sessions[..|b.sessions|] == b.sessions;
      AddMod(Sum(CountedIn, b.sessions), LateSum(max, events, |b.sessions|, true));
      AddMod(Sum(CountedOut, b.sessions), LateSum(max, events, |b.sessions|, false));
    }
  }

  /** The same from the events alone. When nothing is in progress every counter is
      what the sessions' own events add up to, modulo 2^64: successes and failures
      by whether the handshake completed before the event that ended the session,
      the three special failures and the shutdowns by the reason in that event,
      the time by its duration, and each byte total, with what came too late, by
      the bytes that were moved. */
  lemma {:induction false} TotalsFromEvents(max: nat, events: seq<Event>)
    ensures var b := Run(Begin(max), events);
            var n := |b.sessions|;
            Quiescent(b) ==>
              && b.m.success == Total(max, events, EndedWell, n) % TWO_64
              && b.m.failure == Total(max, events, EndedBadly, n) % TWO_64
              && b.m.unauthorized == Total(max, events, EndedUnauthorized, n) % TWO_64
              && b.m.decrypt == Total(max, events, EndedUndecryptable, n) % TWO_64
              && b.m.destination == Total(max, events, EndedUnconnected, n) % TWO_64
              && b.m.duration == Total(max, events, EndedTime, n) % TWO_64
              && Total(max, events, EndedWell, n) + Total(max, events, EndedBadly, n) +
                 Total(max, events, EndedEarly, n) ==
                 Sum(ClosedOne, b.sessions)
              && (b.m.bytesIn + LateSum(max, events, n, true)) % TWO_64 == Total(max, events, EndedIn, n) % TWO_64
              && (b.m.bytesOut + LateSum(max, events, n, false)) % TWO_64 == Total(max, events, EndedOut, n) % TWO_64
  {
    hide Gauge, Permits, Ids, Bounded, Sum, Run, Next, Begin, Total, LateSum;
    var b := Run(Begin(max), events);
    RunKeepsBooks(max, events);
    QuiescentTotals(max, events);
    if Quiescent(b) {
      var n := |b.sessions|;
      assert b.sessions[..n] == b.sessions;
      SettledTotals(max, events, Success, n);
      SettledTotals(max, events, Failure, n);
      SettledTotals(max, events, Early, n);
      SettledTotals(max, events, NotAuthorized, n);
      SettledTotals(max, events, NotDecrypted, n);
      SettledTotals(max, events, NotConnected, n);
      SettledTotals(max, events, Time, n);
      AllSettled(max, events);
      FinalIsMoved(max, events, n, true);
      FinalIsMoved(max, events, n, false);
    }
  }

  function EndedIn(h: History): nat { if h.fate.Ended? then h.movedIn else 0 }
  function EndedOut(h: History): nat { if h.fate.Ended? then h.movedOut else 0 }
  function EndedOf(inward: bool): History -> nat { if inward then EndedIn else EndedOut }

  lemma SettledMoved(s: Session, h: History, inward: bool)
    requires Ledger(s, h) && (s.phase.Closed? || s.phase.Panicked?)
    ensures (FinalOf(inward)(s) + 0) % TWO_64 == EndedOf(inward)(h) % TWO_64
  {
  }

  lemma {:induction false} FinalIsMoved(max: nat, events: seq<Event>, n: nat, inward: bool)
    requires var b := Run(Begin(max), events); n <= |b.sessions| && Settled(b.sessions)
    ensures Sum(FinalOf(inward), Run(Begin(max), events).sessions[..n]) % TWO_64 ==
            Total(max, events, EndedOf(inward), n) % TWO_64
  {
    hide Run, Begin, HistoryOf, Ledger, Sum, FinalOf, EndedOf;
    var sessions, f := Run(Begin(max), events).sessions, FinalOf(inward);
    if n == 0 {
      assert sessions[..n] == [];
      SumOfNone(f);
    } else {
      var front, s, h := sessions[..n - 1], sessions[n - 1], HistoryOf(max, events, n - 1);
      FinalIsMoved(max, events, n - 1, inward);
      LedgersHold(max, events, n - 1);
      SettledMoved(s, h, inward);
      assert sessions[..n] == front + [s];
      SumSnoc(f, front, s);
      AddCongruent(Sum(f, front), 0, Total(max, events, EndedOf(inward), n - 1), f(s), 0, EndedOf(inward)(h));
    }
  }

  lemma ShortBy(total: nat, late: nat, final: nat)
    requires (total + late) % TWO_64 == final % TWO_64
    ensures total % TWO_64 == final % TWO_64 <==> late % TWO_64 == 0
  {
    SameResidue(total, total + late);
  }

  /** Records that a copy task counts after its session's counter has been
      loaded reach no total, and they are the only reason for a difference: a
      byte total is the sum of the closed sessions' final counters iff the late
      bytes are none (or a multiple of 2^64). */
  lemma {:induction false} LateBytesReachNoTotal(max: nat, events: seq<Event>)
    ensures var b := Run(Begin(max), events);
            Quiescent(b) ==>
              && (b.m.bytesIn == Sum(FinalIn, b.sessions) % TWO_64 <==>
                  LateSum(max, events, |b.sessions|, true) % TWO_64 == 0)
              && (b.m.bytesOut == Sum(FinalOut, b.sessions) % TWO_64 <==>
                  LateSum(max, events, |b.sessions|, false) % TWO_64 == 0)
  {
    hide Sum, Run, Begin;
    var b := Run(Begin(max), events);
    QuiescentTotals(max, events);
    RunKeepsBooks(max, events);
    hide LateSum, Permits, Gauge, Opened, Ids, Bounded;
    if Quiescent(b) {
      ShortBy(b.m.bytesIn, LateSum(max, events, |b.sessions|, true), Sum(FinalIn, b.sessions));
      ShortBy(b.m.bytesOut, LateSum(max, events, |b.sessions|, false), Sum(FinalOut, b.sessions));
    }
  }

  function Nothing(s: Session): nat { 0 }

  lemma {:induction false} SumOfNothing(sessions: seq<Session>)
    ensures Sum(Nothing, sessions) == 0
  {
    if sessions != [] {
      SumOfNothing(sessions[..|sessions| - 1]);
    }
  }

  lemma SettledPermits(b: Books)
    requires Permits(b) && Quiescent(b)
    ensures b.available == b.max
  {
    SumSame(Holds, Nothing, b.sessions);
    SumOfNothing(b.sessions);
  }

  lemma StoppingStep(b: Books, e: Event)
    requires b.stopping && b.opening == 0
    ensures var b' := Next(b, e);
            && b'.stopping && b'.opening == 0 && |b'.sessions| == |b.sessions|
            && (forall i :: 0 <= i < |b.sessions| ==> b'.sessions[i].id == b.sessions[i].id)
            && b'.m.total == b.m.total && b'.m.nextId == b.m.nextId
  {
  }

  lemma {:induction false} StopsIdle(max: nat, events: seq<Event>)
    ensures var b := Run(Begin(max), events); b.stopping ==> b.opening == 0
  {
    if events != [] {
      StopsIdle(max, events[..|events| - 1]);
    }
  }

  /** After the shutdown signal no further connection is ever admitted: what the
      loop still joins are exactly the sessions it had, with their ids. */
  lemma {:induction false} StoppingAdmitsNobody(max: nat, events: seq<Event>, later: seq<Event>)
    requires Run(Begin(max), events).stopping
    ensures var a, b := Run(Begin(max), events), Run(Run(Begin(max), events), later);
            && b.stopping && b.opening == 0 && |b.sessions| == |a.sessions|
            && (forall i :: 0 <= i < |a.sessions| ==> b.sessions[i].id == a.sessions[i].id)
            && b.m.total == a.m.total && b.m.nextId == a.m.nextId
  {
    hide Next;
    StopsIdle(max, events);
    if later != [] {
      StoppingAdmitsNobody(max, events, later[..|later| - 1]);
      StoppingStep(Run(Run(Begin(max), events), later[..|later| - 1]), later[|later| - 1]);
    }
  }

  lemma RunSnoc(b: Books, events: seq<Event>, e: Event)
    ensures Run(b, events + [e]) == Next(Run(b, events), e)
  {
    assert (events + [e])[..|events|] == events;
  }

  /** One session that has counted nothing, on its way through its close. */
  predicate LoneClose(b: Books, k: nat) {
    && b.opening == 0 && |b.sessions| == 1 && b.m.bytesIn == 0
    && b.sessions[0].phase == Closing(k) && b.sessions[0].bytesIn == 0 && b.sessions[0].sawIn == 0
  }

  lemma LoneCloseStep(b: Books, k: nat)
    requires LoneClose(b, k) && k < CLOSE_OPS
    ensures LoneClose(Next(b, CloseStep(0)), k + 1)
  {
    CloseOpPays(b.m, b.sessions[0]);
  }

  lemma {:induction false} LoneCloseRuns(b: Books, events: seq<Event>, k: nat) returns (all: seq<Event>)
    requires LoneClose(Run(b, events), 0) && k <= CLOSE_OPS
    ensures LoneClose(Run(b, all), k)
  {
    all := events;
    if k > 0 {
      all := LoneCloseRuns(b, events, k - 1);
      LoneCloseStep(Run(b, all), k - 1);
      RunSnoc(b, all, CloseStep(0));
      all := all + [CloseStep(0)];
    }
  }

  /** Late bytes do occur: a run with one session whose copy task, not yet
      cancelled, counts a byte after the session was closed. The books are at
      rest, the session's own counter says one, the total says none. */
  lemma LateByteIsLost() returns (events: seq<Event>)
    ensures var b := Run(Begin(1), events);
            Quiescent(b) && b.m.bytesIn == 0 && Sum(FinalIn, b.sessions) == 1
  {
    var begin := Begin(1);
    RunSnoc(begin, [], Accept);
    RunSnoc(begin, [] + [Accept], OpenStep);
    RunSnoc(begin, [] + [Accept] + [OpenStep], OpenStep);
    RunSnoc(begin, [] + [Accept] + [OpenStep] + [OpenStep], OpenStep);
    events := [] + [Accept] + [OpenStep] + [OpenStep] + [OpenStep];
    assert Run(begin, []) == begin;
    RunSnoc(begin, events, Finish(0, OtherReason, 0));
    events := events + [Finish(0, OtherReason, 0)];
    hide Run;
    events := LoneCloseRuns(Begin(1), events, CLOSE_OPS);
    RunSnoc(Begin(1), events, CloseStep(0));
    events := events + [CloseStep(0)];
    RunSnoc(Begin(1), events, Move(0, 1, 0));
    events := events + [Move(0, 1, 0)];
    var b := Run(Begin(1), events);
    assert b.sessions == [] + [b.sessions[0]];
    SumSnoc(FinalIn, [], b.sessions[0]);
  }

  // ------------------------------------------------------- the metrics object

  /** The close sequence run without interruption. */
  function CloseAll(m: Metrics, s: Session): Metrics
    requires s.phase.Closing? && s.phase.done <= CLOSE_OPS
    decreases CLOSE_OPS - s.phase.done
  {
    if s.phase.done == CLOSE_OPS then m
    else
      var (m', s') := CloseOp(m, s);
      CloseAll(m', s')
  }

  class ConnectionTelemetry {
    const id: nat
    var handshakeSucceeded: bool
    var bytesClientToServer: nat
    var bytesServerToClient: nat

    constructor (id: nat)
      ensures this.id == id && !handshakeSucceeded && bytesClientToServer == bytesServerToClient == 0
    {
      this.id := id;
      handshakeSucceeded, bytesClientToServer, bytesServerToClient := false, 0, 0;
    }

    function AsSession(reason: CloseReason, duration: nat): Session
      reads this
    {
      Session(id, handshakeSucceeded, bytesClientToServer, bytesServerToClient, Closing(0), reason, duration,
              false, 0, 0)
    }
  }

  class TunnelMetrics {
    var m: Metrics

    constructor ()
      ensures m == ZERO
    {
      m := ZERO;
    }

    method ConnectionOpened() returns (t: ConnectionTelemetry)
      modifies this
      ensures fresh(t) && t.id == FetchAdd(old(m).nextId, 1) && !t.handshakeSucceeded
      ensures m == old(m).(active := FetchAdd(old(m).active, 1), total := FetchAdd(old(m).total, 1), nextId := t.id)
    {
      m := m.(active := FetchAdd(m.active, 1));
      m := m.(total := FetchAdd(m.total, 1));
      m := m.(nextId := FetchAdd(m.nextId, 1));
      t := new ConnectionTelemetry(m.nextId);
    }

    /** connection_closed, uninterrupted: the steps of the machine in a row. */
    method ConnectionClosed(t: ConnectionTelemetry, reason: CloseReason, duration: nat)
      modifies this
      ensures m == CloseAll(old(m), t.AsSession(reason, duration))
    {
      ghost var s0 := t.AsSession(reason, duration);
      m := m.(active := FetchSubOne(m.active));
      var handshaken := t.handshakeSucceeded;
      if handshaken {
        m := m.(success := FetchAdd(m.success, 1));
      } else if reason != Shutdown {
        m := m.(failure := FetchAdd(m.failure, 1));
      }
      if reason == UnauthorizedClient {
        m := m.(unauthorized := FetchAdd(m.unauthorized, 1));
      }
      if reason == DecryptFailed {
        m := m.(decrypt := FetchAdd(m.decrypt, 1));
      }
      if reason == DestinationConnectFailed {
        m := m.(destination := FetchAdd(m.destination, 1));
      }
      m := m.(bytesIn := FetchAdd(m.bytesIn, t.bytesClientToServer));
      m := m.(bytesOut := FetchAdd(m.bytesOut, t.bytesServerToClient));
      m := m.(duration := FetchAdd(m.duration, duration));
      CloseAllIs(old(m), s0);
    }
  }

  /** What an uninterrupted close does, counter by counter. */
  lemma CloseAllIs(m: Metrics, s: Session)
    requires s.phase == Closing(0)
    ensures CloseAll(m, s) ==
            m.(active := FetchSubOne(m.active),
               success := if s.handshaken then FetchAdd(m.success, 1) else m.success,
               failure := if !s.handshaken && s.reason != Shutdown then FetchAdd(m.failure, 1) else m.failure,
               unauthorized := if s.reason == UnauthorizedClient then FetchAdd(m.unauthorized, 1) else m.unauthorized,
               decrypt := if s.reason == DecryptFailed then FetchAdd(m.decrypt, 1) else m.decrypt,
               destination := if s.reason == DestinationConnectFailed then FetchAdd(m.destination, 1)
                              else m.destination,
               bytesIn := FetchAdd(m.bytesIn, s.bytesIn),
               bytesOut := FetchAdd(m.bytesOut, s.bytesOut),
               duration := FetchAdd(m.duration, s.duration))
  {
    var (m1, s1) := CloseOp(m, s);
    var (m2, s2) := CloseOp(m1, s1);
    var (m3, s3) := CloseOp(m2, s2);
    var (m4, s4) := CloseOp(m3, s3);
    var (m5, s5) := CloseOp(m4, s4);
    var (m6, s6) := CloseOp(m5, s5);
    var (m7, s7) := CloseOp(m6, s6);
    var (m8, s8) := CloseOp(m7, s7);
    var (m9, s9) := CloseOp(m8, s8);
    var (m10, s10) := CloseOp(m9, s9);
    var (m11, s11) := CloseOp(m10, s10);
    assert CloseAll(m11, s11) == m11;
    assert CloseAll(m9, s9) == CloseAll(m10, s10) == m11;
    assert CloseAll(m7, s7) == CloseAll(m8, s8) == m11;
    assert CloseAll(m5, s5) == CloseAll(m6, s6) == m11;
    assert CloseAll(m3, s3) == CloseAll(m4, s4) == m11;
    assert CloseAll(m1, s1) == CloseAll(m2, s2) == m11;
  }
}
