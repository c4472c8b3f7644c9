/** Byte-level formats of protocol version 1: the preface and the two kinds of
    length-prefixed frame (crates/secure-tunnel/src/lib.rs). */
module Wire {
  import opened Basics

  const MAX_HANDSHAKE_MESSAGE: nat := 4096
  const MAX_PLAINTEXT_RECORD: nat := 16384
  const MAX_CIPHERTEXT_RECORD: nat := 16400
  const TAG_LENGTH: nat := 16
  const PREFACE: bytes := [67, 68, 88, 84, 1, 0]

  datatype NoiseError = Decrypt | Exhausted | Other(code: nat)

  datatype TunnelError =
    | InvalidPreface
    | UnsupportedVersion(major: byte, minor: byte)
    | HandshakeMessageTooLarge(size: nat)
    | PlaintextTooLarge(size: nat)
    | CiphertextTooLarge(size: nat)
    | TruncatedFrame(expected: nat, actual: nat)
    | TrailingFrameBytes
    | HandshakeOrder
    | ClosedSession
    | UnauthorisedClient
    | MissingServerStaticIdentity
    | TooManyServerStaticIdentities(count: nat)
    | Noise(cause: NoiseError)
    | PoisonedCipherState

  // ---------------------------------------------------------------- preface

  function ParsePreface(value: bytes): Result<(), TunnelError> {
    if |value| != |PREFACE| || value[..4] != PREFACE[..4] then
      Err(InvalidPreface)
    else if value[4] != 1 then
      Err(UnsupportedVersion(value[4], value[5]))
    else if value[5] != 0 then
      Err(UnsupportedVersion(value[4], value[5]))
    else
      Ok(())
  }

  /** Exactly one byte string is a valid preface; a version error, naming the
      two version bytes in their order, is reported exactly for a well-formed
      preface of another version; everything else is no preface at all. */
  lemma PrefaceExact(value: bytes)
    ensures ParsePreface(value).Ok? <==> value == PREFACE
    ensures forall major, minor ::
              ParsePreface(value) == Err(UnsupportedVersion(major, minor)) <==>
              value == PREFACE[..4] + [major, minor] && [major, minor] != [1, 0]
    ensures ParsePreface(value) == Err(InvalidPreface) <==> |value| != 6 || value[..4] != PREFACE[..4]
  {
    if |value| == 6 && value[..4] == PREFACE[..4] {
      assert value == value[..4] + value[4..];
      assert value[4..] == [value[4], value[5]];
      assert PREFACE == PREFACE[..4] + [1, 0];
    }
    forall major, minor
      ensures ParsePreface(value) == Err(UnsupportedVersion(major, minor)) <==>
              value == PREFACE[..4] + [major, minor] && [major, minor] != [1, 0]
    {
      var other := PREFACE[..4] + [major, minor];
      assert other[..4] == PREFACE[..4] && other[4] == major && other[5] == minor;
      assert [major, minor] == [1, 0] <==> major == 1 && minor == 0 by {
        assert [major, minor][0] == major && [major, minor][1] == minor;
      }
    }
  }

  // ------------------------------------------------------ big-endian lengths

  function Pow256(width: nat): nat {
    if width == 0 then 1 else 256 * Pow256(width - 1)
  }

  function ToBe(n: nat, width: nat): (b: bytes)
    ensures |b| == width
  {
    if width == 0 then [] else ToBe(n / 256, width - 1) + [(n % 256) as byte]
  }

  function FromBe(b: bytes): nat {
    if b == [] then 0 else FromBe(b[..|b| - 1]) * 256 + b[|b| - 1] as nat
  }

  lemma {:induction false} FromToBe(n: nat, width: nat)
    requires n < Pow256(width)
    ensures FromBe(ToBe(n, width)) == n
  {
    if width > 0 {
      FromToBe(n / 256, width - 1);
      assert ToBe(n, width)[..width - 1] == ToBe(n / 256, width - 1);
    }
  }

  lemma {:induction false} ToFromBe(b: bytes)
    ensures FromBe(b) < Pow256(|b|)
    ensures ToBe(FromBe(b), |b|) == b
  {
    if b != [] {
      ToFromBe(b[..|b| - 1]);
      assert b == b[..|b| - 1] + [b[|b| - 1]];
    }
  }

  /** Headers are big-endian: the first byte weighs most. */
  lemma BigEndian(a: byte, b: byte, c: byte, d: byte)
    ensures FromBe([a, b]) == a as nat * 256 + b as nat
    ensures FromBe([a, b, c, d]) == a as nat * 16777216 + b as nat * 65536 + c as nat * 256 + d as nat
  {
    assert [a][..0] == [] && [a, b][..1] == [a];
    assert [a, b, c][..2] == [a, b] && [a, b, c, d][..3] == [a, b, c];
    assert FromBe([]) == 0;
    assert FromBe([a]) == a as nat;
    assert FromBe([a, b]) == FromBe([a]) * 256 + b as nat;
    assert FromBe([a, b, c]) == FromBe([a, b]) * 256 + c as nat;
  }

  /** The largest plaintext makes exactly the largest record. */
  lemma LargestRecord()
    ensures MAX_PLAINTEXT_RECORD + TAG_LENGTH == MAX_CIPHERTEXT_RECORD
  {
  }

  lemma HeaderWidths()
    ensures Pow256(2) == 65536 && Pow256(4) == 4294967296
  {
    assert Pow256(1) == 256 && Pow256(3) == 16777216;
  }

  // ----------------------------------------------------------------- frames

  /** A payload behind its big-endian length. */
  function Frame(width: nat, payload: bytes): (frame: bytes)
    ensures |frame| == width + |payload|
  {
    ToBe(|payload|, width) + payload
  }

  function EncodeHandshakeFrame(message: bytes): Result<bytes, TunnelError> {
    if |message| > MAX_HANDSHAKE_MESSAGE then
      Err(HandshakeMessageTooLarge(|message|))
    else
      assert |message| < 65536;  // the conversion of the length to 16 bits cannot fail
      Ok(Frame(2, message))
  }

  function DecodeHandshakeFrame(frame: bytes): Result<bytes, TunnelError> {
    DecodeFrame(frame, 2, MAX_HANDSHAKE_MESSAGE, true)
  }

  function DecodeRecordFrame(frame: bytes): Result<bytes, TunnelError> {
    DecodeFrame(frame, 4, MAX_CIPHERTEXT_RECORD, false)
  }

  function DecodeFrame(frame: bytes, headerLen: nat, maximum: nat, handshake: bool): Result<bytes, TunnelError> {
    if |frame| < headerLen then
      Err(TruncatedFrame(headerLen, |frame|))
    else
      var claimed := FromBe(frame[..headerLen]);
      if claimed > maximum then
        Err(if handshake then HandshakeMessageTooLarge(claimed) else CiphertextTooLarge(claimed))
      else
        var expected := headerLen + claimed;
        if |frame| < expected then Err(TruncatedFrame(expected, |frame|))
        else if |frame| > expected then Err(TrailingFrameBytes)
        else Ok(frame[headerLen..])
  }

  /** A decoded frame is the frame of its payload, and nothing else decodes to
      that payload: decoding and framing are inverse on payloads in range. */
  lemma DecodeExact(frame: bytes, headerLen: nat, maximum: nat, handshake: bool, payload: bytes)
    requires maximum < Pow256(headerLen)
    ensures DecodeFrame(frame, headerLen, maximum, handshake) == Ok(payload) <==>
            |payload| <= maximum && frame == Frame(headerLen, payload)
  {
    if DecodeFrame(frame, headerLen, maximum, handshake) == Ok(payload) {
      ToFromBe(frame[..headerLen]);
      assert frame == frame[..headerLen] + frame[headerLen..];
    }
    if |payload| <= maximum && frame == Frame(headerLen, payload) {
      FromToBe(|payload|, headerLen);
      assert frame[..headerLen] == ToBe(|payload|, headerLen);
      assert frame[headerLen..] == payload;
    }
  }

  /** What decoding answers to a header that claims n bytes and any tail behind
      it, and to an input shorter than a header: with every size it reports. */
  lemma DecodeAnswers(width: nat, maximum: nat, handshake: bool, n: nat, tail: bytes, short: bytes)
    requires n < Pow256(width) && |short| < width
    ensures DecodeFrame(ToBe(n, width) + tail, width, maximum, handshake) ==
            if n > maximum then Err(if handshake then HandshakeMessageTooLarge(n) else CiphertextTooLarge(n))
            else if |tail| < n then Err(TruncatedFrame(width + n, width + |tail|))
            else if |tail| > n then Err(TrailingFrameBytes)
            else Ok(tail)
    ensures DecodeFrame(short, width, maximum, handshake) == Err(TruncatedFrame(width, |short|))
  {
    var frame := ToBe(n, width) + tail;
    FromToBe(n, width);
    assert frame[..width] == ToBe(n, width) && frame[width..] == tail;
  }

  /** Every payload a writer may send round-trips; every frame that decodes
      re-encodes to itself; every oversized payload is refused with its size. */
  lemma HandshakeCodecBijection(message: bytes, frame: bytes)
    ensures |message| <= MAX_HANDSHAKE_MESSAGE ==>
              EncodeHandshakeFrame(message).Ok? &&
              DecodeHandshakeFrame(EncodeHandshakeFrame(message).value) == Ok(message)
    ensures |message| > MAX_HANDSHAKE_MESSAGE ==>
              EncodeHandshakeFrame(message) == Err(HandshakeMessageTooLarge(|message|))
    ensures DecodeHandshakeFrame(frame).Ok? ==>
              EncodeHandshakeFrame(DecodeHandshakeFrame(frame).value) == Ok(frame)
  {
    HeaderWidths();
    if |message| <= MAX_HANDSHAKE_MESSAGE {
      DecodeExact(Frame(2, message), 2, MAX_HANDSHAKE_MESSAGE, true, message);
    }
    if DecodeHandshakeFrame(frame).Ok? {
      DecodeExact(frame, 2, MAX_HANDSHAKE_MESSAGE, true, DecodeHandshakeFrame(frame).value);
    }
  }

  /** Frames are self-delimiting: two streams that start with a frame and agree
      have the same payload and the same remainder. */
  lemma FramesArePrefixFree(width: nat, a: bytes, b: bytes, restA: bytes, restB: bytes)
    requires |a| < Pow256(width) && |b| < Pow256(width)
    requires Frame(width, a) + restA == Frame(width, b) + restB
    ensures a == b && restA == restB
  {
    var s := Frame(width, a) + restA;
    assert s[..width] == ToBe(|a|, width) && s[..width] == ToBe(|b|, width);
    FromToBe(|a|, width);
    FromToBe(|b|, width);
    assert s[width..width + |a|] == a && s[width..width + |b|] == b;
    assert s[width + |a|..] == restA && s[width + |b|..] == restB;
  }

  /** A frame cut short or followed by anything is rejected, with the byte
      counts a reader of the error needs. */
  lemma DecodeRejectsCutAndTrailing(payload: bytes, cut: nat, extra: bytes)
    requires |payload| <= MAX_CIPHERTEXT_RECORD && cut < 4 + |payload| && extra != []
    ensures DecodeRecordFrame(Frame(4, payload)[..cut]) ==
            Err(TruncatedFrame(if cut < 4 then 4 else 4 + |payload|, cut))
    ensures DecodeRecordFrame(Frame(4, payload) + extra) == Err(TrailingFrameBytes)
  {
    HeaderWidths();
    FromToBe(|payload|, 4);
    var frame := Frame(4, payload);
    assert (frame + extra)[..4] == ToBe(|payload|, 4);
    if cut >= 4 {
      assert frame[..cut][..4] == ToBe(|payload|, 4);
    }
  }
}
