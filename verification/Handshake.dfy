/** The handshake objects of crates/secure-tunnel/src/lib.rs:199-369 over an
    ideal Noise IK: what the Noise library answers to a call is an input. */
module Handshake {
  import opened Basics
  import opened Wire
  import opened Transport

  const MAX_SERVER_STATIC_IDENTITIES: nat := 8

  /** What reading the first IK message with one server identity comes to. */
  datatype Trial =
    | BuildFailed(error: NoiseError)
    | ReadFailed(error: NoiseError)
    | Opened(remote: Option<bytes>)

  /** The responder as a function of identity and message. */
  type Responder = (bytes, bytes) -> Trial

  // ------------------------------------------------- the identity-trial loop

  datatype Verdict = Accepted(index: nat) | Refused(error: TunnelError) | Panics

  predicate ValidRemote(t: Trial) {
    t.Opened? && t.remote.Some? && |t.remote.value| == 32
  }

  predicate Welcome(t: Trial, allow: set<bytes>) {
    ValidRemote(t) && t.remote.value in allow
  }

  /** The trials that end the loop at once. */
  predicate Decisive(t: Trial, allow: set<bytes>) {
    t.BuildFailed? || (t.Opened? && (!ValidRemote(t) || t.remote.value in allow))
  }

  /** The loop from trial i on, with its two local variables. */
  function Loop(trials: seq<Trial>, allow: set<bytes>, i: nat, unauthorised: bool,
                lastError: Option<NoiseError>): (v: Verdict)
    requires i <= |trials|
    ensures v.Accepted? ==> v.index < |trials|
    decreases |trials| - i
  {
    if i == |trials| then
      if unauthorised then Refused(UnauthorisedClient)
      else if lastError.Some? then Refused(Noise(lastError.value))
      else Panics
    else
      match trials[i]
      case BuildFailed(e) => Refused(Noise(e))
      case ReadFailed(e) => Loop(trials, allow, i + 1, unauthorised, Some(e))
      case Opened(remote) =>
        if remote.None? || |remote.value| != 32 then Refused(UnauthorisedClient)
        else if remote.value in allow then Accepted(i)
        else Loop(trials, allow, i + 1, true, lastError)
  }

  function TryAll(trials: seq<Trial>, allow: set<bytes>): Verdict {
    Loop(trials, allow, 0, false, None)
  }

  /** Trial k is the one that ends the loop. */
  predicate First(trials: seq<Trial>, allow: set<bytes>, k: nat) {
    k < |trials| && Decisive(trials[k], allow) && forall j :: 0 <= j < k ==> !Decisive(trials[j], allow)
  }

  /** The answer of the trial that ends the loop. */
  function Stopped(t: Trial, k: nat): Verdict {
    match t
    case BuildFailed(e) => Refused(Noise(e))
    case ReadFailed(e) => Refused(Noise(e))
    case Opened(_) => if ValidRemote(t) then Accepted(k) else Refused(UnauthorisedClient)
  }

  lemma {:induction false} LoopStops(trials: seq<Trial>, allow: set<bytes>, i: nat, unauthorised: bool,
                                     lastError: Option<NoiseError>, k: nat)
    requires First(trials, allow, k) && i <= k
    ensures Loop(trials, allow, i, unauthorised, lastError) == Stopped(trials[k], k)
    decreases k - i
  {
    if i < k {
      assert !Decisive(trials[i], allow);
      match trials[i]
      case ReadFailed(e) => LoopStops(trials, allow, i + 1, unauthorised, Some(e), k);
      case Opened(_) => LoopStops(trials, allow, i + 1, true, lastError, k);
      case BuildFailed(_) => assert false;
    }
  }

  lemma {:induction false} LoopExact(trials: seq<Trial>, allow: set<bytes>, i: nat, unauthorised: bool,
                                     lastError: Option<NoiseError>)
    requires i <= |trials|
    requires forall j :: 0 <= j < i ==> !Decisive(trials[j], allow)
    requires unauthorised <==> exists j :: 0 <= j < i && trials[j].Opened?
    requires lastError.Some? <==> exists j :: 0 <= j < i && trials[j].ReadFailed?
    requires i > 0 && !unauthorised ==> lastError.Some? && lastError.value == trials[i - 1].error
    ensures var v := Loop(trials, allow, i, unauthorised, lastError);
            && (forall k: nat :: v == Accepted(k) <==>
                  k < |trials| && Welcome(trials[k], allow) && forall j :: 0 <= j < k ==> !Decisive(trials[j], allow))
            && (v.Panics? <==> trials == [])
            && ((forall t :: t in trials ==> !Decisive(t, allow)) && trials != [] ==>
                  v == if exists t :: t in trials && t.Opened? then Refused(UnauthorisedClient)
                       else Refused(Noise(trials[|trials| - 1].error)))
    decreases |trials| - i
  {
    if i == |trials| {
    } else {
      assert trials[i] in trials;
      match trials[i]
      case BuildFailed(_) =>
        assert Decisive(trials[i], allow);
      case ReadFailed(e) =>
        LoopExact(trials, allow, i + 1, unauthorised, Some(e));
      case Opened(remote) =>
        if ValidRemote(trials[i]) && remote.value !in allow {
          LoopExact(trials, allow, i + 1, true, lastError);
        } else {
          assert Decisive(trials[i], allow);
        }
    }
  }

  /** The loop accepts identity k iff k opens the message with an allow-listed
      initiator and nothing before it stopped the loop; a responder that cannot
      be built, or a message without a 32-byte initiator key, stops it with the
      Noise error or as unauthorised; with no stopping trial
      it answers UnauthorisedClient iff some identity opened the message, else
      the last identity's Noise error; with an identity configured (which the
      constructor guarantees) the final expect never panics. */
  lemma TrialsExact(trials: seq<Trial>, allow: set<bytes>)
    ensures var v := TryAll(trials, allow);
            && (forall k: nat :: v == Accepted(k) <==>
                  k < |trials| && Welcome(trials[k], allow) && forall j :: 0 <= j < k ==> !Decisive(trials[j], allow))
            && (forall k: nat :: First(trials, allow, k) ==> v == Stopped(trials[k], k))
            && (v.Panics? <==> trials == [])
            && ((forall t :: t in trials ==> !Decisive(t, allow)) && trials != [] ==>
                  v == if exists t :: t in trials && t.Opened? then Refused(UnauthorisedClient)
                       else Refused(Noise(trials[|trials| - 1].error)))
  {
    LoopExact(trials, allow, 0, false, None);
    forall k: nat | First(trials, allow, k)
      ensures TryAll(trials, allow) == Stopped(trials[k], k)
    {
      LoopStops(trials, allow, 0, false, None, k);
    }
  }

  /** The library builds every responder and an opened IK message always
      carries a 32-byte initiator key. */
  predicate WellBehaved(trials: seq<Trial>) {
    forall t :: t in trials ==> t.ReadFailed? || ValidRemote(t)
  }

  lemma FirstWelcome(trials: seq<Trial>, allow: set<bytes>) returns (k: nat)
    requires exists t :: t in trials && Welcome(t, allow)
    ensures k < |trials| && Welcome(trials[k], allow)
    ensures forall j :: 0 <= j < k ==> !Welcome(trials[j], allow)
  {
    k := 0;
    while !Welcome(trials[k], allow)
      invariant k < |trials|
      invariant forall j :: 0 <= j < k ==> !Welcome(trials[j], allow)
      invariant exists j :: k <= j < |trials| && Welcome(trials[j], allow)
      decreases |trials| - k
    {
      k := k + 1;
    }
  }

  /** With a well-behaved library success means exactly that some configured
      identity opens the message with an allow-listed initiator, so neither
      success nor the unauthorised answer depends on the order of identities. */
  lemma OrderOfIdentitiesIsIrrelevant(a: seq<Trial>, b: seq<Trial>, allow: set<bytes>)
    requires WellBehaved(a) && multiset(a) == multiset(b) && a != []
    ensures TryAll(a, allow).Accepted? <==> exists t :: t in a && Welcome(t, allow)
    ensures TryAll(a, allow).Accepted? <==> TryAll(b, allow).Accepted?
    ensures TryAll(a, allow) == Refused(UnauthorisedClient) <==> TryAll(b, allow) == Refused(UnauthorisedClient)
  {
    assert forall t :: t in a <==> t in multiset(a);
    assert forall t :: t in b <==> t in multiset(b);
    assert |a| == |multiset(a)| == |multiset(b)| == |b|;
    Answer(a, allow);
    Answer(b, allow);
  }

  lemma Answer(trials: seq<Trial>, allow: set<bytes>)
    requires WellBehaved(trials) && trials != []
    ensures TryAll(trials, allow).Accepted? <==> exists t :: t in trials && Welcome(t, allow)
    ensures TryAll(trials, allow) == Refused(UnauthorisedClient) <==>
              (exists t :: t in trials && t.Opened?) && !(exists t :: t in trials && Welcome(t, allow))
  {
    TrialsExact(trials, allow);
    if exists t :: t in trials && Welcome(t, allow) {
      var k := FirstWelcome(trials, allow);
      assert TryAll(trials, allow) == Accepted(k);
    } else {
      assert forall t :: t in trials ==> !Decisive(t, allow);
    }
  }

  function Trials(respond: Responder, ids: seq<bytes>, message: bytes): (trials: seq<Trial>)
    ensures |trials| == |ids|
    ensures forall i :: 0 <= i < |ids| ==> trials[i] == respond(ids[i], message)
  {
    seq(|ids|, i requires 0 <= i < |ids| => respond(ids[i], message))
  }

  /** Ideal IK, section 7.5 of the Noise Protocol Framework: a first message
      made for one responder key opens under exactly that key's private half,
      and then shows the initiator's static key. */
  ghost predicate MadeFor(respond: Responder, public: bytes -> bytes, message: bytes, pinned: bytes, initiator: bytes) {
    forall id :: respond(id, message) == if public(id) == pinned then Opened(Some(initiator)) else ReadFailed(Decrypt)
  }

  /** Key-rotation overlap: an honest client gets in iff the server key it pins
      is among the configured ones and the client itself is allow-listed. */
  lemma OverlapAcceptsPinnedKeys(respond: Responder, public: bytes -> bytes, message: bytes, pinned: bytes,
                                 initiator: bytes, ids: seq<bytes>, allow: set<bytes>)
    requires MadeFor(respond, public, message, pinned, initiator) && |initiator| == 32 && ids != []
    ensures var v := TryAll(Trials(respond, ids, message), allow);
            var known := exists id :: id in ids && public(id) == pinned;
            && (v.Accepted? <==> known && initiator in allow)
            && (v.Accepted? ==> v.index < |ids| && public(ids[v.index]) == pinned)
            && (v == Refused(UnauthorisedClient) <==> known && initiator !in allow)
            && (v == Refused(Noise(Decrypt)) <==> !known)
  {
    var trials := Trials(respond, ids, message);
    Answer(trials, allow);
    TrialsExact(trials, allow);
    forall id | id in ids && public(id) == pinned
      ensures Opened(Some(initiator)) in trials
    {
      var i :| 0 <= i < |ids| && ids[i] == id;
      assert trials[i] == Opened(Some(initiator));
    }
    forall t | t in trials
      ensures t == ReadFailed(Decrypt) ||
              (t == Opened(Some(initiator)) && exists id :: id in ids && public(id) == pinned)
    {
      var i :| 0 <= i < |trials| && trials[i] == t;
      assert ids[i] in ids;
    }
  }

  // ------------------------------------------------------ the client's object

  datatype Initiator = Initiator(private: bytes, pinned: bytes)
  datatype ClientState = ClientState(state: Option<Initiator>, sentFirst: bool)

  function FirstMessage(h: ClientState, written: Result<bytes, NoiseError>): (ClientState, Result<bytes, TunnelError>) {
    if h.sentFirst then (h, Err(HandshakeOrder))
    else if h.state.None? then (h, Err(ClosedSession))
    else
      match written
      case Err(e) => (h.(state := None), Err(Noise(e)))
      case Ok(message) =>
        var frame := EncodeHandshakeFrame(message);
        if frame.Err? then (ClientState(None, true), frame) else (ClientState(h.state, true), frame)
  }

  function Finish(h: ClientState, frame: bytes, read: Result<(), NoiseError>,
                  transport: Result<TransportState, NoiseError>)
    : (ClientState, Result<TransportState, TunnelError>)
  {
    if !h.sentFirst then (h, Err(HandshakeOrder))
    else
      var decoded := DecodeHandshakeFrame(frame);
      if decoded.Err? then (h, Err(decoded.error))
      else if h.state.None? then (h, Err(ClosedSession))
      else if read.Err? then (h.(state := None), Err(Noise(read.error)))
      else if transport.Err? then (h.(state := None), Err(Noise(transport.error)))
      else (h.(state := None), Ok(transport.value))
  }

  /** What the two calls answer, in every state. */
  lemma ClientAnswers(h: ClientState, written: Result<bytes, NoiseError>, frame: bytes,
                      read: Result<(), NoiseError>, transport: Result<TransportState, NoiseError>)
    ensures var r := FirstMessage(h, written).1;
            && (r == Err(HandshakeOrder) <==> h.sentFirst)
            && (!h.sentFirst && h.state.None? ==> r == Err(ClosedSession))
            && (!h.sentFirst && h.state.Some? && written.Err? ==> r == Err(Noise(written.error)))
            && (!h.sentFirst && h.state.Some? && written.Ok? ==> r == EncodeHandshakeFrame(written.value))
    ensures var r, decoded := Finish(h, frame, read, transport).1, DecodeHandshakeFrame(frame);
            && (r == Err(HandshakeOrder) <==> !h.sentFirst)
            && (h.sentFirst && decoded.Err? ==> r == Err(decoded.error))
            && (h.sentFirst && decoded.Ok? && h.state.None? ==> r == Err(ClosedSession))
            && (h.sentFirst && decoded.Ok? && h.state.Some? && read.Err? ==> r == Err(Noise(read.error)))
            && (h.sentFirst && decoded.Ok? && h.state.Some? && read.Ok? ==>
                  r == if transport.Ok? then Ok(transport.value) else Err(Noise(transport.error)))
  {
  }

  datatype ClientCall =
    | CallFirst(written: Result<bytes, NoiseError>)
    | CallFinish(frame: bytes, read: Result<(), NoiseError>, transport: Result<TransportState, NoiseError>)

  /** The object together with what it has ever handed out. */
  datatype ClientHistory = ClientHistory(h: ClientState, frames: nat, sessions: nat)

  function ClientNext(c: ClientHistory, call: ClientCall): ClientHistory {
    match call
    case CallFirst(written) =>
      var (h, r) := FirstMessage(c.h, written);
      ClientHistory(h, if r.Ok? then c.frames + 1 else c.frames, c.sessions)
    case CallFinish(frame, read, transport) =>
      var (h, r) := Finish(c.h, frame, read, transport);
      ClientHistory(h, c.frames, if r.Ok? then c.sessions + 1 else c.sessions)
  }

  function ClientRun(c: ClientHistory, calls: seq<ClientCall>): ClientHistory {
    if calls == [] then c else ClientNext(ClientRun(c, calls[..|calls| - 1]), calls[|calls| - 1])
  }

  predicate ClientInv(c: ClientHistory) {
    && c.sessions <= c.frames <= 1
    && (c.frames == 1 ==> c.h.sentFirst)
    && (c.sessions == 1 ==> c.h.state.None?)
    && (c.h.sentFirst && c.h.state.Some? ==> c.frames == 1)
  }

  /** Over every call sequence: at most one frame, at most one session, and a
      session only after the frame. */
  lemma {:induction false} ClientCallOrder(initiator: Initiator, calls: seq<ClientCall>)
    ensures ClientInv(ClientRun(ClientHistory(ClientState(Some(initiator), false), 0, 0), calls))
  {
    if calls != [] {
      ClientCallOrder(initiator, calls[..|calls| - 1]);
    }
  }

  /** Once the Noise state is gone (a failed read or write, or success) the
      object never hands out anything again. */
  lemma {:induction false} ClientSpentForever(c: ClientHistory, calls: seq<ClientCall>)
    requires c.h.state.None?
    ensures var d := ClientRun(c, calls);
            d.h.state.None? && d.frames == c.frames && d.sessions == c.sessions
  {
    if calls != [] {
      ClientSpentForever(c, calls[..|calls| - 1]);
    }
  }

  /** Which calls leave the object as it was, and which spend it. */
  lemma ClientCallEffects(c: ClientHistory, call: ClientCall)
    requires c.h.state.Some?
    ensures call.CallFirst? && !c.h.sentFirst ==>
              var d, fits := ClientNext(c, call), call.written.Ok? && |call.written.value| <= MAX_HANDSHAKE_MESSAGE;
              (d.frames == c.frames + 1 <==> fits) && (fits <==> d.h.state == c.h.state) && (fits ==> d.h.sentFirst)
    ensures call.CallFirst? && c.h.sentFirst ==> ClientNext(c, call) == c
    ensures call.CallFinish? && (!c.h.sentFirst || DecodeHandshakeFrame(call.frame).Err?) ==> ClientNext(c, call) == c
    ensures call.CallFinish? && c.h.sentFirst && DecodeHandshakeFrame(call.frame).Ok? ==>
              ClientNext(c, call).h.state.None? &&
              (ClientNext(c, call).sessions == c.sessions + 1 <==> call.read.Ok? && call.transport.Ok?)
  {
  }

  // ------------------------------------------------------ the server's objects

  /** The constructor refuses empty and over-long identity lists. */
  type Identities = ids: seq<bytes> | 1 <= |ids| <= MAX_SERVER_STATIC_IDENTITIES witness [[]]

  datatype ServerState = ServerState(identities: Option<Identities>, allow: set<bytes>, prefaceAccepted: bool)
  datatype ReplyState = ReplyState(state: Option<bytes>, sentReply: bool)

  function AcceptPreface(s: ServerState, preface: bytes): (ServerState, Result<(), TunnelError>) {
    if s.prefaceAccepted then (s, Err(HandshakeOrder))
    else
      var parsed := ParsePreface(preface);
      if parsed.Err? then (s, parsed) else (s.(prefaceAccepted := true), Ok(()))
  }

  /** The reply carries the identity that opened the message. */
  function ReceiveClient(s: ServerState, frame: bytes, respond: Responder)
    : (ServerState, Result<ReplyState, TunnelError>)
  {
    if !s.prefaceAccepted then (s, Err(HandshakeOrder))
    else
      var message := DecodeHandshakeFrame(frame);
      if message.Err? then (s, Err(message.error))
      else if s.identities.None? then (s, Err(ClosedSession))
      else
        var ids := s.identities.value;
        var trials := Trials(respond, ids, message.value);
        TrialsExact(trials, s.allow);
        match TryAll(trials, s.allow)
        case Accepted(k) => (s.(identities := None), Ok(ReplyState(Some(ids[k]), false)))
        case Refused(e) => (s.(identities := None), Err(e))
        case Panics => assert false; (s.(identities := None), Err(ClosedSession))
  }

  function ReplyMessage(r: ReplyState, written: Result<bytes, NoiseError>): (ReplyState, Result<bytes, TunnelError>) {
    if r.sentReply then (r, Err(HandshakeOrder))
    else if r.state.None? then (r, Err(ClosedSession))
    else
      match written
      case Err(e) => (r.(state := None), Err(Noise(e)))
      case Ok(message) =>
        var frame := EncodeHandshakeFrame(message);
        if frame.Err? then (ReplyState(None, true), frame) else (ReplyState(r.state, true), frame)
  }

  function IntoSession(r: ReplyState, transport: Result<TransportState, NoiseError>)
    : Result<TransportState, TunnelError>
  {
    if !r.sentReply then Err(HandshakeOrder)
    else if r.state.None? then Err(ClosedSession)
    else if transport.Err? then Err(Noise(transport.error))
    else Ok(transport.value)
  }

  /** What receive_client answers, in every state: the gate and the decoder come
      first, then the identities; among these the trial that ends the loop
      decides, and with no such trial the message is refused as unauthorised iff
      some identity opened it, else with the last identity's Noise error. */
  lemma ReceiveAnswers(s: ServerState, frame: bytes, respond: Responder)
    ensures var r, message := ReceiveClient(s, frame, respond).1, DecodeHandshakeFrame(frame);
            && (!s.prefaceAccepted ==> r == Err(HandshakeOrder))
            && (s.prefaceAccepted && message.Err? ==> r == Err(message.error))
            && (s.prefaceAccepted && message.Ok? && s.identities.None? ==> r == Err(ClosedSession))
            && (s.prefaceAccepted && message.Ok? && s.identities.Some? ==>
                  var ids := s.identities.value;
                  var trials := Trials(respond, ids, message.value);
                  && (forall k: nat :: First(trials, s.allow, k) ==>
                        r == match trials[k]
                             case BuildFailed(e) => Err(Noise(e))
                             case ReadFailed(e) => Err(Noise(e))
                             case Opened(_) =>
                               if ValidRemote(trials[k]) then Ok(ReplyState(Some(ids[k]), false))
                               else Err(UnauthorisedClient))
                  && ((forall t :: t in trials ==> !Decisive(t, s.allow)) ==>
                        r == if exists t :: t in trials && t.Opened? then Err(UnauthorisedClient)
                             else Err(Noise(trials[|trials| - 1].error))))
  {
    if s.prefaceAccepted && DecodeHandshakeFrame(frame).Ok? && s.identities.Some? {
      TrialsExact(Trials(respond, s.identities.value, DecodeHandshakeFrame(frame).value), s.allow);
    }
  }

  /** Under a well-behaved library the two refusals are told apart exactly. */
  lemma ReceiveRefusals(s: ServerState, frame: bytes, respond: Responder)
    requires s.prefaceAccepted && DecodeHandshakeFrame(frame).Ok? && s.identities.Some?
    requires WellBehaved(Trials(respond, s.identities.value, DecodeHandshakeFrame(frame).value))
    ensures var r := ReceiveClient(s, frame, respond).1;
            var trials := Trials(respond, s.identities.value, DecodeHandshakeFrame(frame).value);
            && (r.Ok? <==> exists t :: t in trials && Welcome(t, s.allow))
            && (r == Err(UnauthorisedClient) <==>
                  (exists t :: t in trials && t.Opened?) && !(exists t :: t in trials && Welcome(t, s.allow)))
            && (forall e :: r == Err(Noise(e)) <==>
                  (forall t :: t in trials ==> t.ReadFailed?) && e == trials[|trials| - 1].error)
  {
    var trials := Trials(respond, s.identities.value, DecodeHandshakeFrame(frame).value);
    Answer(trials, s.allow);
    TrialsExact(trials, s.allow);
    assert trials[|trials| - 1] in trials;
    if !(exists t :: t in trials && t.Opened?) {
      assert forall t :: t in trials ==> t.ReadFailed? && !Decisive(t, s.allow);
    }
  }

  /** An honest client's message at a server: accepted iff its pinned key is
      configured and it is allow-listed, unauthorised iff the key is configured
      and it is not, a decryption error iff the key is not configured. */
  lemma ReceiveHonest(s: ServerState, respond: Responder, public: bytes -> bytes, message: bytes, pinned: bytes,
                      initiator: bytes)
    requires MadeFor(respond, public, message, pinned, initiator) && |initiator| == 32
    requires s.prefaceAccepted && s.identities.Some? && |message| <= MAX_HANDSHAKE_MESSAGE
    ensures var r := ReceiveClient(s, Frame(2, message), respond).1;
            var known := exists id :: id in s.identities.value && public(id) == pinned;
            && (r.Ok? <==> known && initiator in s.allow)
            && (r.Ok? ==> r.value.state.Some? && public(r.value.state.value) == pinned)
            && (r == Err(UnauthorisedClient) <==> known && initiator !in s.allow)
            && (r == Err(Noise(Decrypt)) <==> !known)
  {
    HandshakeCodecBijection(message, []);
    OverlapAcceptsPinnedKeys(respond, public, message, pinned, initiator, s.identities.value, s.allow);
  }

  /** What the server's other calls answer, in every state. */
  lemma ServerAnswers(s: ServerState, preface: bytes, r: ReplyState, written: Result<bytes, NoiseError>,
                      transport: Result<TransportState, NoiseError>)
    ensures AcceptPreface(s, preface).1 == if s.prefaceAccepted then Err(HandshakeOrder) else ParsePreface(preface)
    ensures AcceptPreface(s, preface).0.prefaceAccepted <==> s.prefaceAccepted || preface == PREFACE
    ensures var a := ReplyMessage(r, written).1;
            && (a == Err(HandshakeOrder) <==> r.sentReply)
            && (!r.sentReply && r.state.None? ==> a == Err(ClosedSession))
            && (!r.sentReply && r.state.Some? && written.Err? ==> a == Err(Noise(written.error)))
            && (!r.sentReply && r.state.Some? && written.Ok? ==> a == EncodeHandshakeFrame(written.value))
    ensures var a := IntoSession(r, transport);
            && (a == Err(HandshakeOrder) <==> !r.sentReply)
            && (r.sentReply && r.state.None? ==> a == Err(ClosedSession))
            && (r.sentReply && r.state.Some? ==>
                  a == if transport.Ok? then Ok(transport.value) else Err(Noise(transport.error)))
  {
    PrefaceExact(preface);
  }

  datatype ServerCall =
    | CallPreface(preface: bytes)
    | CallReceive(frame: bytes, respond: Responder)
    | CallMessage(written: Result<bytes, NoiseError>)
    | CallSession(transport: Result<TransportState, NoiseError>)

  /** The server's objects on one connection, and what they ever did: prefaces
      accepted, rounds of identity trials, clients authorised, reply frames and
      sessions. into_session consumes the reply object. */
  datatype ServerHistory = ServerHistory(s: ServerState, reply: Option<ReplyState>,
                                         trials: nat, authorised: nat, frames: nat, sessions: nat)

  function ServerNext(c: ServerHistory, call: ServerCall): ServerHistory {
    match call
    case CallPreface(preface) => c.(s := AcceptPreface(c.s, preface).0)
    case CallReceive(frame, respond) =>
      var (s, r) := ReceiveClient(c.s, frame, respond);
      c.(s := s,
         trials := if s.identities != c.s.identities then c.trials + 1 else c.trials,
         reply := if r.Ok? then Some(r.value) else c.reply,
         authorised := if r.Ok? then c.authorised + 1 else c.authorised)
    case CallMessage(written) =>
      if c.reply.None? then c
      else
        var (r, frame) := ReplyMessage(c.reply.value, written);
        c.(reply := Some(r), frames := if frame.Ok? then c.frames + 1 else c.frames)
    case CallSession(transport) =>
      if c.reply.None? then c
      else
        var session := IntoSession(c.reply.value, transport);
        c.(reply := None, sessions := if session.Ok? then c.sessions + 1 else c.sessions)
  }

  function ServerRun(c: ServerHistory, calls: seq<ServerCall>): ServerHistory {
    if calls == [] then c else ServerNext(ServerRun(c, calls[..|calls| - 1]), calls[|calls| - 1])
  }

  predicate ServerInv(c: ServerHistory) {
    && c.sessions <= c.frames <= c.authorised <= c.trials <= 1
    && (c.trials == 1 <==> c.s.identities.None?)
    && (c.trials == 1 ==> c.s.prefaceAccepted)
    && (c.reply.Some? ==> c.authorised == 1 && c.sessions == 0)
    && (c.reply.Some? && c.reply.value.sentReply && c.reply.value.state.Some? ==> c.frames == 1)
    && (c.reply.Some? && !c.reply.value.sentReply ==> c.frames == 0)
  }

  /** Over every call sequence: the identities are tried at most once and only
      after a valid preface; a reply frame needs an authorised client, a session
      needs the reply frame, and there is at most one of each. */
  lemma {:induction false} ServerCallOrder(ids: Identities, allow: set<bytes>, calls: seq<ServerCall>)
    ensures ServerInv(ServerRun(ServerHistory(ServerState(Some(ids), allow, false), None, 0, 0, 0, 0), calls))
  {
    if calls != [] {
      ServerCallOrder(ids, allow, calls[..|calls| - 1]);
    }
  }

  /** A first message that is refused spends the connection: whatever is called
      afterwards, no reply object, frame or session ever comes out. */
  lemma {:induction false} ServerSpentForever(c: ServerHistory, calls: seq<ServerCall>)
    requires c.s.identities.None? && c.reply.None?
    ensures var d := ServerRun(c, calls);
            d.s.identities.None? && d.reply.None? && d.trials == c.trials &&
            d.authorised == c.authorised && d.frames == c.frames && d.sessions == c.sessions
  {
    if calls != [] {
      ServerSpentForever(c, calls[..|calls| - 1]);
    }
  }

  /** Out-of-order and mis-framed calls change nothing; and exactly which calls
      authorise a client, hand out the reply frame or the session. */
  lemma ServerCallEffects(c: ServerHistory, call: ServerCall)
    ensures call.CallPreface? && (c.s.prefaceAccepted || call.preface != PREFACE) ==> ServerNext(c, call) == c
    ensures call.CallReceive? && (!c.s.prefaceAccepted || DecodeHandshakeFrame(call.frame).Err?) ==>
              ServerNext(c, call) == c
    ensures call.CallMessage? && c.reply.Some? && c.reply.value.sentReply ==> ServerNext(c, call) == c
    ensures call.CallReceive? && c.s.prefaceAccepted && DecodeHandshakeFrame(call.frame).Ok? ==>
              ServerNext(c, call).s.identities.None?
    ensures call.CallReceive? && c.s.prefaceAccepted && c.s.identities.Some? && DecodeHandshakeFrame(call.frame).Ok? ==>
              var trials := Trials(call.respond, c.s.identities.value, DecodeHandshakeFrame(call.frame).value);
              (ServerNext(c, call).authorised == c.authorised + 1 <==> TryAll(trials, c.s.allow).Accepted?)
    ensures call.CallMessage? && c.reply.Some? && !c.reply.value.sentReply && c.reply.value.state.Some? ==>
              var d, fits := ServerNext(c, call), call.written.Ok? && |call.written.value| <= MAX_HANDSHAKE_MESSAGE;
              (d.frames == c.frames + 1 <==> fits) && (fits <==> d.reply.value.state.Some?) &&
              (fits ==> d.reply.value.sentReply)
    ensures call.CallSession? && c.reply.Some? ==>
              var d := ServerNext(c, call);
              d.reply.None? &&
              (d.sessions == c.sessions + 1 <==>
               c.reply.value.sentReply && c.reply.value.state.Some? && call.transport.Ok?)
  {
    if call.CallPreface? {
      PrefaceExact(call.preface);
    }
  }
}
