/** The incremental frame readers of both binaries, over a byte stream that
    hands out its bytes in pieces of its own choosing. */
module FrameReader {
  import opened Basics
  import opened Wire

  datatype ReadError = Io | UnexpectedEof | InvalidLength(length: nat) | Oversized(length: nat)

  // -------------------------------------------------------- the pure parsers

  /** What one call of read_record_frame finds at the start of a whole stream. */
  function ParseRecord(s: bytes): Result<Option<bytes>, ReadError> {
    if s == [] then Ok(None)
    else if |s| < 4 then Err(UnexpectedEof)
    else
      var length := FromBe(s[..4]);
      if length == 0 || length > MAX_CIPHERTEXT_RECORD then Err(InvalidLength(length))
      else if |s| < 4 + length then Err(UnexpectedEof)
      else Ok(Some(s[..4 + length]))
  }

  function ParseLengthFramed(s: bytes, headerLen: nat, maximum: nat): Result<bytes, ReadError> {
    if |s| < headerLen then Err(UnexpectedEof)
    else
      var length := FromBe(s[..headerLen]);
      if length > maximum then Err(Oversized(length))
      else if |s| < headerLen + length then Err(UnexpectedEof)
      else Ok(s[..headerLen + length])
  }

  datatype Ending = Clean | Broken(error: ReadError)
  datatype Parsed = Parsed(frames: seq<bytes>, ending: Ending)

  /** All records of a stream up to its end or its first fault. */
  function ParseAll(s: bytes): Parsed
    decreases |s|
  {
    match ParseRecord(s)
    case Err(e) => Parsed([], Broken(e))
    case Ok(None) => Parsed([], Clean)
    case Ok(Some(frame)) =>
      var rest := ParseAll(s[|frame|..]);
      Parsed([frame] + rest.frames, rest.ending)
  }

  predicate Payload(ciphertext: bytes) {
    1 <= |ciphertext| <= MAX_CIPHERTEXT_RECORD
  }

  /** The reader returns a frame exactly when the stream starts with the frame
      of a payload of legal size, and the record decoder accepts what it got. */
  lemma RecordExact(s: bytes, ciphertext: bytes)
    ensures Payload(ciphertext) && Frame(4, ciphertext) <= s ==>
              ParseRecord(s) == Ok(Some(Frame(4, ciphertext)))
    ensures ParseRecord(s).Ok? && ParseRecord(s).value.Some? ==>
              var frame := ParseRecord(s).value.value;
              frame <= s && DecodeRecordFrame(frame).Ok? && Payload(DecodeRecordFrame(frame).value) &&
              frame == Frame(4, DecodeRecordFrame(frame).value)
    ensures ParseRecord(s) == Ok(None) <==> s == []
  {
    HeaderWidths();
    if Payload(ciphertext) && Frame(4, ciphertext) <= s {
      FromToBe(|ciphertext|, 4);
      var frame := Frame(4, ciphertext);
      assert s == frame + s[|frame|..];
      assert s[..4] == ToBe(|ciphertext|, 4);
      assert s[..4 + |ciphertext|] == frame;
    }
    if ParseRecord(s).Ok? && ParseRecord(s).value.Some? {
      var frame := ParseRecord(s).value.value;
      assert frame[..4] == s[..4];
      DecodeExact(frame, 4, MAX_CIPHERTEXT_RECORD, false, frame[4..]);
    }
  }

  /** A stream that ends inside a record is an error wherever it is cut. */
  lemma CutRecordIsAnError(ciphertext: bytes, cut: nat)
    requires Payload(ciphertext) && 0 < cut < 4 + |ciphertext|
    ensures ParseRecord(Frame(4, ciphertext)[..cut]) == Err(UnexpectedEof)
  {
    HeaderWidths();
    FromToBe(|ciphertext|, 4);
    if cut >= 4 {
      assert Frame(4, ciphertext)[..cut][..4] == ToBe(|ciphertext|, 4);
    }
  }

  lemma HeaderAndTail(n: nat, width: nat, tail: bytes)
    requires n < Pow256(width)
    ensures var s := ToBe(n, width) + tail;
            && |s| == width + |tail| && FromBe(s[..width]) == n
            && (n <= |tail| ==> s[..width + n] == Frame(width, tail[..n]))
  {
    var s := ToBe(n, width) + tail;
    FromToBe(n, width);
    hide FromBe, ToBe;
    assert s[..width] == ToBe(n, width);
  }

  /** What the record reader finds behind a header that claims n bytes. */
  lemma RecordHeaderDecides(n: nat, tail: bytes)
    requires n < Pow256(4)
    ensures ParseRecord(ToBe(n, 4) + tail) ==
            if n == 0 || n > MAX_CIPHERTEXT_RECORD then Err(InvalidLength(n))
            else if |tail| < n then Err(UnexpectedEof)
            else Ok(Some(Frame(4, tail[..n])))
  {
    HeaderAndTail(n, 4, tail);
    hide FromBe, ToBe, Frame;
  }

  /** What the length-framed reader finds there. */
  lemma LengthHeaderDecides(n: nat, width: nat, maximum: nat, tail: bytes)
    requires n < Pow256(width)
    ensures ParseLengthFramed(ToBe(n, width) + tail, width, maximum) ==
            if n > maximum then Err(Oversized(n))
            else if |tail| < n then Err(UnexpectedEof)
            else Ok(Frame(width, tail[..n]))
  {
    HeaderAndTail(n, width, tail);
    hide FromBe, ToBe, Frame;
  }

  /** A stream that ends inside a header is an error unless it is empty and a
      record, not a handshake frame, was expected. */
  lemma ShortHeader(short: bytes, width: nat, maximum: nat)
    requires |short| < width
    ensures ParseLengthFramed(short, width, maximum) == Err(UnexpectedEof)
    ensures width == 4 ==> ParseRecord(short) == if short == [] then Ok(None) else Err(UnexpectedEof)
  {
  }

  lemma ParseFirst(ciphertext: bytes, after: bytes)
    requires Payload(ciphertext)
    ensures var parsed := ParseAll(Frame(4, ciphertext) + after);
            parsed.frames == [Frame(4, ciphertext)] + ParseAll(after).frames &&
            parsed.ending == ParseAll(after).ending
  {
    var s := Frame(4, ciphertext) + after;
    RecordExact(s, ciphertext);
    assert s[|Frame(4, ciphertext)|..] == after;
  }

  /** Records written one after the other parse to exactly those records, and
      the reader then stands at whatever follows them. */
  lemma {:induction false} ParseAllFrames(frames: seq<bytes>, payloads: seq<bytes>, rest: bytes)
    requires |frames| == |payloads|
    requires forall i :: 0 <= i < |frames| ==> Payload(payloads[i]) && frames[i] == Frame(4, payloads[i])
    ensures ParseAll(Concat(frames) + rest) ==
            Parsed(frames + ParseAll(rest).frames, ParseAll(rest).ending)
  {
    hide ParseAll, ToBe;
    var s, last := Concat(frames) + rest, ParseAll(rest);
    if frames == [] {
      assert s == rest;
      assert frames + last.frames == last.frames;
    } else {
      var first, tail := frames[0], frames[1..];
      var after := Concat(tail) + rest;
      assert s == first + after by { ConcatCons(frames); }
      ParseFirst(payloads[0], after);
      ParseAllFrames(tail, payloads[1..], rest);
      assert [first] + (tail + last.frames) == frames + last.frames;
    }
  }

  /** Conversely: the parsed records are a prefix of the stream, each accepted
      by the record decoder, and they are the whole stream iff it ended cleanly. */
  lemma {:induction false} ParseAllExact(s: bytes)
    ensures Concat(ParseAll(s).frames) <= s
    ensures ParseAll(s).ending.Clean? <==> Concat(ParseAll(s).frames) == s
    ensures forall f :: f in ParseAll(s).frames ==> DecodeRecordFrame(f).Ok?
    decreases |s|
  {
    RecordExact(s, []);
    match ParseRecord(s)
    case Err(_) =>
    case Ok(None) =>
    case Ok(Some(frame)) =>
      var rest := ParseAll(s[|frame|..]);
      ParseAllExact(s[|frame|..]);
      ConcatCons([frame] + rest.frames);
      assert s == frame + s[|frame|..];
  }

  /** The handshake reader recovers an encoded message from any longer stream,
      and whatever it returns is one well-formed handshake frame. */
  lemma HandshakeFramed(message: bytes, rest: bytes, s: bytes)
    requires |message| <= MAX_HANDSHAKE_MESSAGE
    ensures ParseLengthFramed(Frame(2, message) + rest, 2, MAX_HANDSHAKE_MESSAGE) == Ok(Frame(2, message))
    ensures ParseLengthFramed(s, 2, MAX_HANDSHAKE_MESSAGE).Ok? ==>
              ParseLengthFramed(s, 2, MAX_HANDSHAKE_MESSAGE).value <= s &&
              DecodeHandshakeFrame(ParseLengthFramed(s, 2, MAX_HANDSHAKE_MESSAGE).value).Ok?
  {
    HeaderWidths();
    FromToBe(|message|, 2);
    var t := Frame(2, message) + rest;
    assert t[..2] == ToBe(|message|, 2);
    assert t[..2 + |message|] == Frame(2, message);
    var r := ParseLengthFramed(s, 2, MAX_HANDSHAKE_MESSAGE);
    if r.Ok? {
      assert r.value[..2] == s[..2];
    }
  }

  // ------------------------------------------------------------- the readers

  /** The receiving side of a socket: `pending` is everything the peer will
      still deliver before its end of stream. */
  class ByteStream {
    var pending: bytes
    var failed: bool

    constructor (content: bytes)
      ensures pending == content && !failed
    {
      pending, failed := content, false;
    }

    /** One read call: any non-empty amount that fits, nothing only at the end
        of the stream (or for an empty buffer), or an I/O error, which `failed`
        remembers. */
    method Read(buf: array<byte>, from: nat, to: nat) returns (r: Result<nat, ReadError>)
      requires from <= to <= buf.Length
      modifies this, buf
      ensures r.Err? ==> r.error == Io && pending == old(pending) && failed
      ensures r.Ok? ==> failed == old(failed)
      ensures r.Ok? ==>
                r.value <= to - from && r.value <= |old(pending)| &&
                pending == old(pending)[r.value..] &&
                (r.value == 0 <==> from == to || old(pending) == []) &&
                forall i :: from <= i < from + r.value ==> buf[i] == old(pending)[i - from]
      ensures forall i :: 0 <= i < from ==> buf[i] == old(buf[i])
    {
      if * {
        failed := true;
        return Err(Io);
      }
      var most := if to - from < |pending| then to - from else |pending|;
      var least := if most == 0 then 0 else 1;
      var n: nat :| least <= n <= most;
      forall i | from <= i < from + n {
        buf[i] := pending[i - from];
      }
      pending := pending[n..];
      return Ok(n);
    }

    /** read_exact: repeated reads until the buffer part is full. */
    method ReadExact(buf: array<byte>, from: nat, to: nat) returns (r: Result<(), ReadError>)
      requires from <= to <= buf.Length
      modifies this, buf
      ensures r.Ok? ==>
                to - from <= |old(pending)| &&
                pending == old(pending)[to - from..] &&
                forall i :: from <= i < to ==> buf[i] == old(pending)[i - from]
      ensures r.Err? ==> (r.error == Io && failed) || (r.error == UnexpectedEof && |old(pending)| < to - from)
      ensures r != Err(Io) ==> failed == old(failed)
      ensures forall i :: 0 <= i < from ==> buf[i] == old(buf[i])
    {
      var filled := from;
      while filled < to
        invariant from <= filled <= to
        invariant filled - from <= |old(pending)|
        invariant pending == old(pending)[filled - from..]
        invariant forall i :: from <= i < filled ==> buf[i] == old(pending)[i - from]
        invariant forall i :: 0 <= i < from ==> buf[i] == old(buf[i])
        invariant failed == old(failed)
      {
        var got := this.Read(buf, filled, to);
        if got.Err? {
          return Err(Io);
        }
        if got.value == 0 {
          return Err(UnexpectedEof);
        }
        filled := filled + got.value;
      }
      return Ok(());
    }
  }

  lemma DropDrop(s: bytes, a: nat, b: nat)
    requires a + b <= |s|
    ensures s[a..][b..] == s[a + b..]
  {
  }

  /** The four header bytes: one read that may find the clean end of the stream,
      then the other three. */
  method ReadHeader(stream: ByteStream, header: array<byte>) returns (r: Result<bool, ReadError>)
    requires header.Length == 4
    modifies stream, header
    ensures r == Ok(false) <==> r.Ok? && old(stream.pending) == []
    ensures r == Ok(false) ==> stream.pending == []
    ensures r == Ok(true) ==>
              |old(stream.pending)| >= 4 && header[..] == old(stream.pending)[..4] &&
              stream.pending == old(stream.pending)[4..]
    ensures r.Err? ==> (r.error == Io && stream.failed) || (r.error == UnexpectedEof && 0 < |old(stream.pending)| < 4)
    ensures r != Err(Io) ==> stream.failed == old(stream.failed)
  {
    ghost var s := stream.pending;
    var first := stream.Read(header, 0, 1);
    if first.Err? {
      return Err(Io);
    }
    if first.value == 0 {
      return Ok(false);
    }
    assert header[0] == s[0];
    var others := stream.ReadExact(header, 1, 4);
    if others.Err? {
      return Err(others.error);
    }
    DropDrop(s, 1, 3);
    return Ok(true);
  }

  /** read_record_frame: for every way the stream may split its bytes, an
      I/O error if the stream had one, else exactly the parser's answer, leaving the stream right after
      the frame. */
  method ReadRecordFrame(stream: ByteStream) returns (r: Result<Option<bytes>, ReadError>)
    modifies stream
    ensures if r == Err(Io) then stream.failed
            else r == ParseRecord(old(stream.pending)) && stream.failed == old(stream.failed)
    ensures r.Ok? && r.value.None? ==> stream.pending == []
    ensures r.Ok? && r.value.Some? ==> stream.pending == old(stream.pending)[|r.value.value|..]
  {
    ghost var s := stream.pending;
    var header := new byte[4];
    var found := ReadHeader(stream, header);
    if found.Err? {
      return Err(found.error);
    }
    if !found.value {
      return Ok(None);
    }
    var length := FromBe(header[..]);
    if length == 0 || length > MAX_CIPHERTEXT_RECORD {
      return Err(InvalidLength(length));
    }
    var frame := new byte[4 + length];
    forall i | 0 <= i < 4 {
      frame[i] := header[i];
    }
    var body := stream.ReadExact(frame, 4, 4 + length);
    if body.Err? {
      return Err(body.error);
    }
    DropDrop(s, 4, length);
    assert frame[..] == s[..4 + length] by {
      assert forall i :: 0 <= i < 4 ==> frame[i] == header[..][i];
    }
    return Ok(Some(frame[..]));
  }

  /** read_length_framed, used for the handshake with a two-byte header. */
  method ReadLengthFramed(stream: ByteStream, headerLen: nat, maximum: nat) returns (r: Result<bytes, ReadError>)
    modifies stream
    ensures if r == Err(Io) then stream.failed
            else r == ParseLengthFramed(old(stream.pending), headerLen, maximum) && stream.failed == old(stream.failed)
    ensures r.Ok? ==> stream.pending == old(stream.pending)[|r.value|..]
  {
    var header := new byte[headerLen];
    var head := stream.ReadExact(header, 0, headerLen);
    if head.Err? {
      return Err(head.error);
    }
    ghost var s := old(stream.pending);
    assert header[..] == s[..headerLen];
    var length := FromBe(header[..]);
    if length > maximum {
      return Err(Oversized(length));
    }
    var frame := new byte[headerLen + length];
    forall i | 0 <= i < headerLen {
      frame[i] := header[i];
    }
    var body := stream.ReadExact(frame, headerLen, headerLen + length);
    if body.Err? {
      return Err(body.error);
    }
    assert frame[..] == s[..headerLen + length];
    return Ok(frame[..]);
  }
}
