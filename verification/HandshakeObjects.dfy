/** The handshake objects as the library updates them in place, and the two
    handshake routines of the binaries that drive them. */
module HandshakeObjects {
  import opened Basics
  import opened Wire
  import opened FrameReader
  import opened Transport
  import opened Handshake
  import CopyLoops

  function AllowList(clients: seq<bytes>): set<bytes> {
    set c | c in clients
  }

  class ClientHandshake {
    var state: Option<Initiator>
    var sentFirst: bool

    function Value(): ClientState
      reads this
    {
      ClientState(state, sentFirst)
    }

    constructor (private: bytes, pinned: bytes)
      ensures Value() == ClientState(Some(Initiator(private, pinned)), false)
    {
      state, sentFirst := Some(Initiator(private, pinned)), false;
    }

    method FirstMessage(written: Result<bytes, NoiseError>) returns (r: Result<bytes, TunnelError>)
      modifies this
      ensures (Value(), r) == Handshake.FirstMessage(old(Value()), written)
    {
      if sentFirst {
        return Err(HandshakeOrder);
      }
      if state.None? {
        return Err(ClosedSession);
      }
      var taken := state;
      state := None;
      if written.Err? {
        return Err(Noise(written.error));
      }
      sentFirst := true;
      var frame := EncodeHandshakeFrame(written.value);
      if frame.Err? {
        return frame;
      }
      state := taken;
      return frame;
    }

    method Finish(serverFrame: bytes, read: Result<(), NoiseError>, transport: Result<TransportState, NoiseError>)
      returns (r: Result<TransportState, TunnelError>)
      modifies this
      ensures (Value(), r) == Handshake.Finish(old(Value()), serverFrame, read, transport)
    {
      if !sentFirst {
        return Err(HandshakeOrder);
      }
      var message := DecodeHandshakeFrame(serverFrame);
      if message.Err? {
        return Err(message.error);
      }
      if state.None? {
        return Err(ClosedSession);
      }
      state := None;
      if read.Err? {
        return Err(Noise(read.error));
      }
      if transport.Err? {
        return Err(Noise(transport.error));
      }
      return Ok(transport.value);
    }
  }

  class ServerReply {
    var state: Option<bytes>
    var sentReply: bool

    function Value(): ReplyState
      reads this
    {
      ReplyState(state, sentReply)
    }

    constructor (identity: bytes)
      ensures Value() == ReplyState(Some(identity), false)
    {
      state, sentReply := Some(identity), false;
    }

    method Message(written: Result<bytes, NoiseError>) returns (r: Result<bytes, TunnelError>)
      modifies this
      ensures (Value(), r) == ReplyMessage(old(Value()), written)
    {
      if sentReply {
        return Err(HandshakeOrder);
      }
      if state.None? {
        return Err(ClosedSession);
      }
      var taken := state;
      state := None;
      if written.Err? {
        return Err(Noise(written.error));
      }
      sentReply := true;
      var frame := EncodeHandshakeFrame(written.value);
      if frame.Err? {
        return frame;
      }
      state := taken;
      return frame;
    }

    method IntoSession(transport: Result<TransportState, NoiseError>) returns (r: Result<TransportState, TunnelError>)
      modifies this
      ensures r == Handshake.IntoSession(old(Value()), transport)
    {
      if !sentReply {
        return Err(HandshakeOrder);
      }
      if state.None? {
        return Err(ClosedSession);
      }
      state := None;
      if transport.Err? {
        return Err(Noise(transport.error));
      }
      return Ok(transport.value);
    }
  }

  class ServerHandshake {
    var staticIdentities: Option<Identities>
    var allowList: set<bytes>
    var prefaceAccepted: bool

    function Value(): ServerState
      reads this
    {
      ServerState(staticIdentities, allowList, prefaceAccepted)
    }

    constructor (identities: Identities, clients: seq<bytes>)
      ensures Value() == ServerState(Some(identities), AllowList(clients), false)
    {
      staticIdentities, allowList, prefaceAccepted := Some(identities), AllowList(clients), false;
    }

    method AcceptPreface(preface: bytes) returns (r: Result<(), TunnelError>)
      modifies this
      ensures (Value(), r) == Handshake.AcceptPreface(old(Value()), preface)
    {
      if prefaceAccepted {
        return Err(HandshakeOrder);
      }
      var parsed := ParsePreface(preface);
      if parsed.Err? {
        return parsed;
      }
      prefaceAccepted := true;
      return Ok(());
    }

    /** receive_client: the identities are taken before the first trial. */
    method ReceiveClient(clientFrame: bytes, respond: Responder) returns (r: Result<ServerReply, TunnelError>)
      modifies this
      ensures r.Ok? ==> fresh(r.value)
      ensures var spec := Handshake.ReceiveClient(old(Value()), clientFrame, respond);
              Value() == spec.0 &&
              (if r.Ok? then spec.1 == Ok(r.value.Value()) else spec.1 == Err(r.error))
    {
      if !prefaceAccepted {
        return Err(HandshakeOrder);
      }
      var message := DecodeHandshakeFrame(clientFrame);
      if message.Err? {
        return Err(message.error);
      }
      if staticIdentities.None? {
        return Err(ClosedSession);
      }
      var ids: seq<bytes> := staticIdentities.value;
      staticIdentities := None;
      var unauthorisedClient, lastError: Option<NoiseError> := false, None;
      ghost var trials := Trials(respond, ids, message.value);
      var i := 0;
      while i < |ids|
        invariant i <= |ids|
        invariant Loop(trials, allowList, i, unauthorisedClient, lastError) == TryAll(trials, allowList)
        invariant unauthorisedClient || lastError.Some? || i == 0
        invariant allowList == old(allowList) && staticIdentities.None? && prefaceAccepted
      {
        match respond(ids[i], message.value) {
          case BuildFailed(e) =>
            return Err(Noise(e));
          case ReadFailed(e) =>
            lastError := Some(e);
          case Opened(remote) =>
            if remote.None? || |remote.value| != 32 {
              return Err(UnauthorisedClient);
            }
            if remote.value in allowList {
              var reply := new ServerReply(ids[i]);
              return Ok(reply);
            }
            unauthorisedClient := true;
        }
        i := i + 1;
      }
      if unauthorisedClient {
        return Err(UnauthorisedClient);
      }
      return Err(Noise(lastError.value));
    }
  }

  /** new_with_static_identities. */
  method NewServerHandshake(privates: seq<bytes>, clients: seq<bytes>) returns (r: Result<ServerHandshake, TunnelError>)
    ensures r.Ok? <==> 1 <= |privates| <= MAX_SERVER_STATIC_IDENTITIES
    ensures r.Ok? ==> fresh(r.value) && r.value.Value() == ServerState(Some(privates), AllowList(clients), false)
    ensures privates == [] ==> r == Err(MissingServerStaticIdentity)
    ensures |privates| > MAX_SERVER_STATIC_IDENTITIES ==> r == Err(TooManyServerStaticIdentities(|privates|))
  {
    if privates == [] {
      return Err(MissingServerStaticIdentity);
    }
    if |privates| > MAX_SERVER_STATIC_IDENTITIES {
      return Err(TooManyServerStaticIdentities(|privates|));
    }
    var handshake := new ServerHandshake(privates, clients);
    return Ok(handshake);
  }

  // ------------------------------------------------- the server's run_noise

  datatype Event =
    | PrefaceAccepted
    | ClientAuthorised(identity: bytes)
    | ReplyWritten(frame: bytes)
    | SessionReady
    | DestinationConnect

  datatype Stop = Environment | Protocol(error: TunnelError) | BadFrame(read: ReadError)

  /** What the Noise library answers during one connection. */
  datatype Library = Library(respond: Responder, reply: Result<bytes, NoiseError>,
                             transport: Result<TransportState, NoiseError>)

  /** A client's opening bytes: the preface and one handshake frame. */
  function FirstFrame(input: bytes): Result<bytes, ReadError> {
    if |input| < 6 then Err(UnexpectedEof) else ParseLengthFramed(input[6..], 2, MAX_HANDSHAKE_MESSAGE)
  }

  /** The identity that authenticates an authorised client behind this input. */
  function Authorised(input: bytes, ids: seq<bytes>, allow: set<bytes>, respond: Responder): Option<bytes> {
    var frame := FirstFrame(input);
    if |input| < 6 || input[..6] != PREFACE || frame.Err? || DecodeHandshakeFrame(frame.value).Err? then None
    else
      match TryAll(Trials(respond, ids, DecodeHandshakeFrame(frame.value).value), allow)
      case Accepted(k) => Some(ids[k])
      case _ => None
  }

  /** Why the server turns these opening bytes away, in the order in which it
      looks: the preface's length, its own identities, the preface, the frame,
      and the trials. */
  function Rejection(input: bytes, ids: seq<bytes>, allow: set<bytes>, respond: Responder): Option<Stop> {
    if |input| < 6 then Some(BadFrame(UnexpectedEof))
    else if ids == [] then Some(Protocol(MissingServerStaticIdentity))
    else if |ids| > MAX_SERVER_STATIC_IDENTITIES then Some(Protocol(TooManyServerStaticIdentities(|ids|)))
    else if ParsePreface(input[..6]).Err? then Some(Protocol(ParsePreface(input[..6]).error))
    else
      var frame := FirstFrame(input);
      if frame.Err? then Some(BadFrame(frame.error))
      else
        var message := DecodeHandshakeFrame(frame.value);
        if message.Err? then Some(Protocol(message.error))
        else
          match TryAll(Trials(respond, ids, message.value), allow)
          case Refused(e) => Some(Protocol(e))
          case _ => None
  }

  /** Nothing is turned away exactly when an authorised client is behind it. */
  lemma RejectedIff(input: bytes, ids: seq<bytes>, allow: set<bytes>, respond: Responder)
    ensures Rejection(input, ids, allow, respond) == None <==>
            |ids| <= MAX_SERVER_STATIC_IDENTITIES && Authorised(input, ids, allow, respond).Some?
  {
    if |input| >= 6 {
      PrefaceExact(input[..6]);
    }
    if FirstFrame(input).Ok? && DecodeHandshakeFrame(FirstFrame(input).value).Ok? {
      TrialsExact(Trials(respond, ids, DecodeHandshakeFrame(FirstFrame(input).value).value), allow);
    }
  }

  /** An honest client's opening bytes, with anything behind them: let in iff its
      pinned key is configured and it is allow-listed, unauthorised iff the key
      is configured and it is not, a decryption error iff the key is not. */
  lemma HonestRejection(respond: Responder, public: bytes -> bytes, message: bytes, pinned: bytes, initiator: bytes,
                        ids: Identities, allow: set<bytes>, rest: bytes)
    requires MadeFor(respond, public, message, pinned, initiator) && |initiator| == 32
    requires |message| <= MAX_HANDSHAKE_MESSAGE
    ensures var r := Rejection(PREFACE + Frame(2, message) + rest, ids, allow, respond);
            var known := exists id :: id in ids && public(id) == pinned;
            && (r == None <==> known && initiator in allow)
            && (r == Some(Protocol(UnauthorisedClient)) <==> known && initiator !in allow)
            && (r == Some(Protocol(Noise(Decrypt))) <==> !known)
  {
    var input := PREFACE + Frame(2, message) + rest;
    assert input[..6] == PREFACE && input[6..] == Frame(2, message) + rest;
    HandshakeFramed(message, rest, []);
    HandshakeCodecBijection(message, []);
    PrefaceExact(PREFACE);
    OverlapAcceptsPinnedKeys(respond, public, message, pinned, initiator, ids, allow);
    hide TryAll, Trials, ParsePreface, ParseLengthFramed, Frame;
  }

  /** Why a run of the server stops by itself: the rejection if there is one, else
      what the library or the codec says to the reply and the session. */
  function Ending(input: bytes, ids: seq<bytes>, allow: set<bytes>, library: Library): Option<Stop> {
    var rejection := Rejection(input, ids, allow, library.respond);
    if rejection.Some? then rejection
    else if library.reply.Err? then Some(Protocol(Noise(library.reply.error)))
    else if |library.reply.value| > MAX_HANDSHAKE_MESSAGE then
      Some(Protocol(HandshakeMessageTooLarge(|library.reply.value|)))
    else if library.transport.Err? then Some(Protocol(Noise(library.transport.error)))
    else None
  }

  /** The events of a connection that gets as far as its destination. */
  function FullRun(input: bytes, ids: seq<bytes>, allow: set<bytes>, library: Library): seq<Event>
    requires Authorised(input, ids, allow, library.respond).Some? && library.reply.Ok?
  {
    [PrefaceAccepted, ClientAuthorised(Authorised(input, ids, allow, library.respond).value),
     ReplyWritten(Frame(2, library.reply.value)), SessionReady, DestinationConnect]
  }

  /** All that has to hold before the server may open its destination. */
  predicate Gate(input: bytes, ids: seq<bytes>, allow: set<bytes>, library: Library) {
    && |ids| <= MAX_SERVER_STATIC_IDENTITIES
    && Authorised(input, ids, allow, library.respond).Some?
    && library.reply.Ok? && |library.reply.value| <= MAX_HANDSHAKE_MESSAGE
    && library.transport.Ok?
  }

  /** What receive_client refuses is what the rejection says. */
  lemma RefusalIsRejection(input: bytes, ids: seq<bytes>, clients: seq<bytes>, respond: Responder, frame: bytes,
                           e: TunnelError)
    requires |input| >= 6 && input[..6] == PREFACE && FirstFrame(input) == Ok(frame)
    requires 1 <= |ids| <= MAX_SERVER_STATIC_IDENTITIES
    requires Handshake.ReceiveClient(ServerState(Some(ids), AllowList(clients), true), frame, respond).1 == Err(e)
    ensures Rejection(input, ids, AllowList(clients), respond) == Some(Protocol(e))
  {
    PrefaceExact(input[..6]);
    if DecodeHandshakeFrame(frame).Ok? {
      TrialsExact(Trials(respond, ids, DecodeHandshakeFrame(frame).value), AllowList(clients));
    }
  }

  /** The receiving part of run_noise: preface, objects, first frame, trials. */
  method ServerReceive(outer: ByteStream, ids: seq<bytes>, clients: seq<bytes>, respond: Responder)
    returns (r: Result<ServerReply, Stop>, events: seq<Event>)
    modifies outer
    ensures var allow, input := AllowList(clients), old(outer.pending);
            && (r.Ok? ==>
                  && |ids| <= MAX_SERVER_STATIC_IDENTITIES && Authorised(input, ids, allow, respond).Some?
                  && fresh(r.value) && r.value.Value() == ReplyState(Authorised(input, ids, allow, respond), false)
                  && events == [PrefaceAccepted, ClientAuthorised(Authorised(input, ids, allow, respond).value)])
            && (r.Err? ==> events <= [PrefaceAccepted])
            && (events != [] ==> |input| >= 6 && input[..6] == PREFACE)
            && (r.Err? ==> if r.error == Environment then outer.failed
                           else Rejection(input, ids, allow, respond) == Some(r.error))
            && (r.Ok? ==> Rejection(input, ids, allow, respond) == None)
  {
    events := [];
    ghost var input := old(outer.pending);
    var preface := new byte[6];
    var got := outer.ReadExact(preface, 0, 6);
    if got.Err? {
      return Err(if got.error == Io then Environment else BadFrame(got.error)), events;
    }
    assert preface[..] == input[..6];
    var made := NewServerHandshake(ids, clients);
    if made.Err? {
      return Err(Protocol(made.error)), events;
    }
    var handshake := made.value;
    var accepted := handshake.AcceptPreface(preface[..]);
    PrefaceExact(preface[..]);
    if accepted.Err? {
      return Err(Protocol(accepted.error)), events;
    }
    events := [PrefaceAccepted];
    var first := ReadLengthFramed(outer, 2, MAX_HANDSHAKE_MESSAGE);
    if first.Err? {
      return Err(if first.error == Io then Environment else BadFrame(first.error)), events;
    }
    var reply := handshake.ReceiveClient(first.value, respond);
    if reply.Err? {
      RefusalIsRejection(input, ids, clients, respond, first.value, reply.error);
      return Err(Protocol(reply.error)), events;
    }
    events := [PrefaceAccepted, ClientAuthorised(reply.value.state.value)];
    return Ok(reply.value), events;
  }

  /** run_noise of the server up to its destination connect, on whatever bytes
      and with whatever faults the environment chooses: the destination is only
      opened through the gate, after all earlier steps in this order and with
      the reply on the wire; and a run that stops by itself stops at a closed
      gate, with exactly the error that the bytes and the library's answers
      call for. Timeouts and shutdowns count as failures of the stream they
      interrupt, `reachable` says whether the destination can be connected. */
  method ServerRunNoise(outer: ByteStream, out: CopyLoops.ByteSink, ids: seq<bytes>, clients: seq<bytes>,
                        library: Library, reachable: bool)
    returns (r: Result<TransportState, Stop>, events: seq<Event>)
    modifies outer, out
    ensures var allow, input := AllowList(clients), old(outer.pending);
            && (r.Ok? ==>
                  && Gate(input, ids, allow, library) && r == Ok(library.transport.value)
                  && events == FullRun(input, ids, allow, library)
                  && out.written == old(out.written) + Frame(2, library.reply.value))
            && (DestinationConnect in events ==>
                Gate(input, ids, allow, library) && events == FullRun(input, ids, allow, library))
            && ((exists id :: ClientAuthorised(id) in events) || out.written != old(out.written) ==>
                  Authorised(input, ids, allow, library.respond).Some?)
            && (r.Err? && r.error != Environment ==> !Gate(input, ids, allow, library))
            && (r.Err? ==> if r.error == Environment then outer.failed || out.failed || !reachable
                           else Ending(input, ids, allow, library) == Some(r.error))
            && (r.Ok? ==> reachable)
            && old(out.written) <= out.written
            && (if Authorised(input, ids, allow, library.respond).Some? && library.reply.Ok? then
                  && events <= FullRun(input, ids, allow, library)
                  && out.written <= old(out.written) + Frame(2, library.reply.value)
                  && (ReplyWritten(Frame(2, library.reply.value)) in events ==>
                        out.written == old(out.written) + Frame(2, library.reply.value))
                else
                  |events| <= 2 && out.written == old(out.written))
  {
    RejectedIff(outer.pending, ids, AllowList(clients), library.respond);
    hide Rejection, Authorised, AllowList, Frame;
    var received;
    received, events := ServerReceive(outer, ids, clients, library.respond);
    if received.Err? {
      return Err(received.error), events;
    }
    var reply := received.value;
    var frame := reply.Message(library.reply);
    if frame.Err? {
      return Err(Protocol(frame.error)), events;
    }
    var sent := out.WriteAll(frame.value);
    if !sent {
      return Err(Environment), events;
    }
    var flushed := out.Flush();
    if !flushed {
      return Err(Environment), events;
    }
    events := events + [ReplyWritten(frame.value)];
    var session := reply.IntoSession(library.transport);
    if session.Err? {
      return Err(Protocol(session.error)), events;
    }
    events := events + [SessionReady];
    if !reachable {
      return Err(Environment), events;
    }
    events := events + [DestinationConnect];
    return Ok(session.value), events;
  }

  /** Why the client's handshake stops by itself. */
  function ClientEnding(reply: bytes, first: Result<bytes, NoiseError>, read: Result<(), NoiseError>,
                        transport: Result<TransportState, NoiseError>): Option<Stop>
  {
    var frame := ParseLengthFramed(reply, 2, MAX_HANDSHAKE_MESSAGE);
    if first.Err? then Some(Protocol(Noise(first.error)))
    else if |first.value| > MAX_HANDSHAKE_MESSAGE then Some(Protocol(HandshakeMessageTooLarge(|first.value|)))
    else if frame.Err? then Some(BadFrame(frame.error))
    else if read.Err? then Some(Protocol(Noise(read.error)))
    else if transport.Err? then Some(Protocol(Noise(transport.error)))
    else None
  }

  /** complete_noise_handshake of the client: what it puts on the wire is the
      preface and its one frame, and it has a session iff a well-formed reply
      frame came back and the library accepted it; otherwise it stops with
      exactly the error of the first thing that went wrong. */
  method CompleteNoiseHandshake(remote: ByteStream, out: CopyLoops.ByteSink, private: bytes, pinned: bytes,
                                first: Result<bytes, NoiseError>, read: Result<(), NoiseError>,
                                transport: Result<TransportState, NoiseError>)
    returns (r: Result<TransportState, Stop>)
    modifies remote, out
    ensures r.Ok? ==>
              && first.Ok? && |first.value| <= MAX_HANDSHAKE_MESSAGE
              && out.written == old(out.written) + PREFACE + Frame(2, first.value)
              && ParseLengthFramed(old(remote.pending), 2, MAX_HANDSHAKE_MESSAGE).Ok?
              && read.Ok? && transport.Ok? && r.value == transport.value
    ensures r.Err? ==> if r.error == Environment then remote.failed || out.failed
                       else ClientEnding(old(remote.pending), first, read, transport) == Some(r.error)
    ensures r.Ok? ==> ClientEnding(old(remote.pending), first, read, transport) == None
    ensures old(out.written) <= out.written <=
            old(out.written) + PREFACE +
            if first.Ok? && |first.value| <= MAX_HANDSHAKE_MESSAGE then Frame(2, first.value) else []
  {
    var ok := out.WriteAll(PREFACE);
    if !ok {
      return Err(Environment);
    }
    var handshake := new ClientHandshake(private, pinned);
    var frame := handshake.FirstMessage(first);
    if frame.Err? {
      return Err(Protocol(frame.error));
    }
    ok := out.WriteAll(frame.value);
    if !ok {
      return Err(Environment);
    }
    ok := out.Flush();
    if !ok {
      return Err(Environment);
    }
    var reply := ReadLengthFramed(remote, 2, MAX_HANDSHAKE_MESSAGE);
    if reply.Err? {
      return Err(if reply.error == Io then Environment else BadFrame(reply.error));
    }
    HandshakeFramed([], [], old(remote.pending));
    var session := handshake.Finish(reply.value, read, transport);
    if session.Err? {
      return Err(Protocol(session.error));
    }
    return Ok(session.value);
  }

  // --------------------------------------------------------- the two together

  /** An honest client and an honest server: the server authenticates this very
      client with the identity the client pins, each sends one frame, and both
      end with a session. */
  lemma HonestHandshakeCompletes(respond: Responder, public: bytes -> bytes, message: bytes, pinned: bytes,
                                 initiator: bytes, ids: Identities, clients: seq<bytes>, library: Library,
                                 client: TransportState)
    requires MadeFor(respond, public, message, pinned, initiator) && |initiator| == 32
    requires |message| <= MAX_HANDSHAKE_MESSAGE
    requires library.respond == respond && library.reply.Ok? && |library.reply.value| <= MAX_HANDSHAKE_MESSAGE &&
             library.transport.Ok?
    requires initiator in clients && exists id :: id in ids && public(id) == pinned
    ensures var start := ClientState(Some(Initiator([], pinned)), false);
            var (sent, first) := Handshake.FirstMessage(start, Ok(message));
            && first.Ok?
            && Gate(PREFACE + first.value, ids, AllowList(clients), library)
            && public(Authorised(PREFACE + first.value, ids, AllowList(clients), respond).value) == pinned
            && Handshake.Finish(sent, Frame(2, library.reply.value), Ok(()), Ok(client)).1 == Ok(client)
  {
    var input, allow := PREFACE + Frame(2, message), AllowList(clients);
    assert input[..6] == PREFACE && input[6..] == Frame(2, message) + [];
    HandshakeFramed(message, [], []);
    HandshakeCodecBijection(message, []);
    HandshakeCodecBijection(library.reply.value, []);
    OverlapAcceptsPinnedKeys(respond, public, message, pinned, initiator, ids, allow);
  }

  // ------------------------------------------------------------ configuration

  /** The part of ServerConfig::validate that the handshake and the accept loop
      rely on: identity count, distinct identity files, connection limit, record limit. */
  method ValidateServer(primary: string, additional: seq<string>, maxConnections: nat, maxPlaintext: nat)
    returns (ok: bool)
    ensures ok <==>
              && 1 + |additional| <= MAX_SERVER_STATIC_IDENTITIES
              && primary !in additional
              && (forall i, j :: 0 <= i < j < |additional| ==> additional[i] != additional[j])
              && 1 <= maxConnections <= 1024 && maxPlaintext == MAX_PLAINTEXT_RECORD
  {
    if 1 + |additional| > MAX_SERVER_STATIC_IDENTITIES {
      return false;
    }
    var seen := {primary};
    for i := 0 to |additional|
      invariant seen == {primary} + set j | 0 <= j < i :: additional[j]
      invariant primary !in additional[..i]
      invariant forall j, k :: 0 <= j < k < i ==> additional[j] != additional[k]
    {
      if additional[i] in seen {
        return false;
      }
      seen := seen + {additional[i]};
    }
    if maxConnections == 0 || maxConnections > 1024 || maxPlaintext != 16384 {
      return false;
    }
    return true;
  }
}
