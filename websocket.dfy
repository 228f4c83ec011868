/**
 * The websocket client: messages and their accessors, the connection
 * settings, the scheme check before connecting, the errors and their
 * conversion to the crate's error, and the receive loop that answers pings
 * (section 5.5.2 of RFC 6455) while it waits for the next message. The
 * socket is the frames it will deliver and the frames written to it; URL
 * parsing and JSON encoding are parameters.
 */
module WebSocket {
  import opened Common
  import E = Errors

  /** `WebSocketMessage`. */
  datatype Message = Text(text: string) | Binary(bytes: seq<byte>)

  /** `WebSocketMessage::text` and the `From` conversions of text. */
  function TextMessage(value: string): (m: Message)
    ensures AsText(m) == Some(value) && AsBytes(m).None?
  {
    Text(value)
  }

  /** `WebSocketMessage::binary` and the `From` conversions of bytes. */
  function BinaryMessage(value: seq<byte>): (m: Message)
    ensures AsBytes(m) == Some(value) && AsText(m).None?
  {
    Binary(value)
  }

  /** `as_text` (and `into_text`): the text of a text message, and only of one. */
  function AsText(m: Message): (r: Option<string>)
    ensures r.Some? <==> m.Text?
    ensures r.Some? ==> m == Text(r.value)
  {
    match m
    case Text(t) => Some(t)
    case Binary(_) => None
  }

  /** `as_bytes` (and `into_bytes`): the bytes of a binary message, and only of one. */
  function AsBytes(m: Message): (r: Option<seq<byte>>)
    ensures r.Some? <==> m.Binary?
    ensures r.Some? ==> m == Binary(r.value)
  {
    match m
    case Text(_) => None
    case Binary(b) => Some(b)
  }

  /** `WebSocketError`; foreign sources are carried as their description. */
  datatype WsError = FailToEncodePayload(reason: string) | UnsupportedScheme(scheme: string)
                   | InvalidUri(reason: string) | ConnectionFailed(reason: string)

  /** `HttpError::status`: a websocket error has no status. */
  function Status(e: WsError): (r: Option<nat>)
    ensures r.None?
  {
    None
  }

  /** `From<WebSocketError> for Error`: an invalid URI becomes the crate's own `InvalidUri`; the rest keep their kind. */
  function ToError(e: WsError): (r: E.Error)
    ensures e.InvalidUri? <==> r.InvalidUri?
    ensures e.InvalidUri? ==> r == E.InvalidUri(e.reason)
    ensures !e.InvalidUri? ==> r.WebSocket?
    ensures e.FailToEncodePayload? ==> r == E.WebSocket(E.EncodeFailed(e.reason))
    ensures e.UnsupportedScheme? ==> r == E.WebSocket(E.UnsupportedScheme(e.scheme))
    ensures e.ConnectionFailed? ==> r == E.WebSocket(E.ConnectionFailed(e.reason))
    ensures E.Kind(r) == if e.InvalidUri? then E.RequestKind else E.WebSocketKind
  {
    match e
    case FailToEncodePayload(reason) => E.WebSocket(E.EncodeFailed(reason))
    case UnsupportedScheme(s) => E.WebSocket(E.UnsupportedScheme(s))
    case InvalidUri(reason) => E.InvalidUri(reason)
    case ConnectionFailed(reason) => E.WebSocket(E.ConnectionFailed(reason))
  }

  // ---------------------------------------------------------------------
  // Settings

  /** `WebSocketConfig`: limits in bytes, `None` for none. */
  datatype Config = Config(maxMessageSize: Option<nat>, maxFrameSize: Option<nat>)

  const MiB: nat := 0x10_0000

  /** `WebSocketConfig::default`: 64 MiB messages, 16 MiB frames. */
  function DefaultConfig(): (c: Config)
    ensures c.maxMessageSize == Some(64 * MiB) && c.maxFrameSize == Some(16 * MiB)
    ensures c.maxFrameSize.value < c.maxMessageSize.value
  {
    Config(Some(67_108_864), Some(16_777_216))
  }

  /** `with_max_message_size`: changes that limit only. */
  function WithMaxMessageSize(c: Config, size: Option<nat>): (r: Config)
    ensures r.maxMessageSize == size && r.maxFrameSize == c.maxFrameSize
  {
    c.(maxMessageSize := size)
  }

  /** `with_max_frame_size`: changes that limit only. */
  function WithMaxFrameSize(c: Config, size: Option<nat>): (r: Config)
    ensures r.maxFrameSize == size && r.maxMessageSize == c.maxMessageSize
  {
    c.(maxFrameSize := size)
  }

  // ---------------------------------------------------------------------
  // Connecting

  /** A parsed URL: its scheme and its serialisation. */
  datatype Url = Url(scheme: string, text: string)

  /** `Url::parse`: the URL, or why it is not one. */
  type UrlParser = string -> Result<Url, string>

  /**
   * What `connect_with_config` hands to the websocket handshake: the URL's
   * text and the limits, once the URL parses and its scheme is `ws` or `wss`.
   */
  function Handshake(parse: UrlParser, uri: string, config: Config): (r: Result<(string, Config), WsError>)
    ensures parse(uri).Err? ==> r == Err(InvalidUri(parse(uri).error))
    ensures parse(uri).Ok? && parse(uri).value.scheme != "ws" && parse(uri).value.scheme != "wss" ==>
      r == Err(UnsupportedScheme(parse(uri).value.scheme))
    ensures r.Ok? <==> parse(uri).Ok? && parse(uri).value.scheme in {"ws", "wss"}
    ensures r.Ok? ==> r.value == (parse(uri).value.text, config)
  {
    match parse(uri)
    case Err(reason) => Err(InvalidUri(reason))
    case Ok(url) =>
      if url.scheme == "ws" || url.scheme == "wss" then Ok((url.text, Config(config.maxMessageSize, config.maxFrameSize)))
      else Err(UnsupportedScheme(url.scheme))
  }

  /** `connect`: the default limits. */
  function ConnectHandshake(parse: UrlParser, uri: string): (r: Result<(string, Config), WsError>)
    ensures r.Ok? ==> r.value.1 == DefaultConfig()
    ensures r.Ok? <==> Handshake(parse, uri, DefaultConfig()).Ok?
  {
    Handshake(parse, uri, DefaultConfig())
  }

  // ---------------------------------------------------------------------
  // Receiving

  /** A frame as the protocol library delivers it. */
  datatype Frame = TextFrame(text: string) | BinaryFrame(bytes: seq<byte>) | Ping(payload: seq<byte>)
                 | Pong(payload: seq<byte>) | Close | Raw

  /** The frame a message is sent as. */
  function ToFrame(m: Message): (f: Frame)
    ensures f.TextFrame? <==> m.Text?
    ensures m.Text? ==> f == TextFrame(m.text)
    ensures m.Binary? ==> f == BinaryFrame(m.bytes)
  {
    match m
    case Text(t) => TextFrame(t)
    case Binary(b) => BinaryFrame(b)
  }

  /** What is read from the stream: a frame, or the error reading it failed with. */
  type Incoming = Result<Frame, string>

  /** What one `recv` returns, the frames it leaves unread and the payloads of the pongs it sends. */
  datatype Received = Received(result: Result<Option<Message>, WsError>, rest: seq<Incoming>, pongs: seq<seq<byte>>)

  /**
   * The native `recv` loop over the frames still to come. `writeError` is
   * the error writing to the socket fails with, if it does.
   */
  function Recv(frames: seq<Incoming>, writeError: Option<string>): (r: Received)
    ensures |r.rest| <= |frames|
    ensures r.rest == frames[|frames| - |r.rest|..]
    decreases |frames|
  {
    if frames == [] then Received(Ok(None), [], [])
    else
      match frames[0]
      case Err(reason) => Received(Err(ConnectionFailed(reason)), frames[1..], [])
      case Ok(TextFrame(t)) => Received(Ok(Some(Text(t))), frames[1..], [])
      case Ok(BinaryFrame(b)) => Received(Ok(Some(Binary(b))), frames[1..], [])
      case Ok(Close) => Received(Ok(None), frames[1..], [])
      case Ok(Ping(payload)) =>
        if writeError.Some? then Received(Err(ConnectionFailed(writeError.value)), frames[1..], [])
        else
          var r := Recv(frames[1..], writeError);
          r.(pongs := [payload] + r.pongs)
      case Ok(_) => Recv(frames[1..], writeError)
  }

  /** A frame that ends a `recv`: a message, a close, a read error, or a ping that cannot be answered. */
  predicate Stops(f: Incoming, writeError: Option<string>) {
    f.Err? || f.value.TextFrame? || f.value.BinaryFrame? || f.value.Close? || (f.value.Ping? && writeError.Some?)
  }

  /** What a stopping frame makes `recv` return. */
  function Answer(f: Incoming, writeError: Option<string>): Result<Option<Message>, WsError>
    requires Stops(f, writeError)
  {
    match f
    case Err(reason) => Err(ConnectionFailed(reason))
    case Ok(TextFrame(t)) => Ok(Some(Text(t)))
    case Ok(BinaryFrame(b)) => Ok(Some(Binary(b)))
    case Ok(Close) => Ok(None)
    case Ok(_) => Err(ConnectionFailed(writeError.value))
  }

  /** The payloads of the pings among some frames, in order. */
  function PingPayloads(frames: seq<Incoming>): seq<seq<byte>>
    decreases |frames|
  {
    if frames == [] then []
    else (if frames[0].Ok? && frames[0].value.Ping? then [frames[0].value.payload] else []) + PingPayloads(frames[1..])
  }

  /**
   * `recv` stops at the first stopping frame and returns what it says, having
   * answered every ping before it with a pong carrying the same payload and
   * skipped pongs and raw frames, and leaves the frames after it unread.
   */
  lemma {:induction false} RecvStopsAtFirst(frames: seq<Incoming>, writeError: Option<string>, k: nat)
    requires k < |frames| && Stops(frames[k], writeError)
    requires forall j :: 0 <= j < k ==> !Stops(frames[j], writeError)
    ensures Recv(frames, writeError) == Received(Answer(frames[k], writeError), frames[k + 1..], PingPayloads(frames[..k]))
    decreases k
  {
    if k > 0 {
      var tail := frames[1..];
      assert forall j :: 0 <= j < k - 1 ==> tail[j] == frames[j + 1];
      RecvStopsAtFirst(tail, writeError, k - 1);
      assert tail[k - 1..][1..] == frames[k + 1..];
      assert frames[..k][1..] == tail[..k - 1];
    } else {
      assert frames[..0] == [];
    }
  }

  /** On a stream that ends without a stopping frame, `recv` answers every ping and reports the end. */
  lemma {:induction false} RecvAtEnd(frames: seq<Incoming>, writeError: Option<string>)
    requires forall j :: 0 <= j < |frames| ==> !Stops(frames[j], writeError)
    ensures Recv(frames, writeError) == Received(Ok(None), [], PingPayloads(frames))
    decreases |frames|
  {
    if frames != [] {
      var tail := frames[1..];
      assert forall j :: 0 <= j < |tail| ==> tail[j] == frames[j + 1];
      RecvAtEnd(tail, writeError);
    }
  }

  /** The wasm backend's events. */
  datatype Event = MessageEvent(message: Message) | ErrorEvent(reason: string) | Closed

  /** The wasm `recv`: a message is returned, a close or the end of the events is `None`, an error event fails the connection. */
  function WasmRecv(next: Option<Event>): (r: Result<Option<Message>, WsError>)
    ensures r == Ok(None) <==> next.None? || next == Some(Closed)
    ensures next.Some? && next.value.MessageEvent? ==> r == Ok(Some(next.value.message))
    ensures r.Err? <==> next.Some? && next.value.ErrorEvent?
    ensures r.Err? ==> r.error == ConnectionFailed(next.value.reason)
  {
    match next
    case Some(MessageEvent(m)) => Ok(Some(m))
    case Some(ErrorEvent(reason)) => Err(ConnectionFailed(reason))
    case _ => Ok(None)
  }

  /**
   * The native socket, both halves: the frames it will deliver, the frames
   * written to it, and the error writing fails with, if it does.
   */
  class Socket {
    var incoming: seq<Incoming>
    var outgoing: seq<Frame>
    const writeError: Option<string>

    constructor(incoming: seq<Incoming>, writeError: Option<string>)
      ensures this.incoming == incoming && outgoing == [] && this.writeError == writeError
    {
      this.incoming := incoming;
      outgoing := [];
      this.writeError := writeError;
    }

    /** `send_message`: writes the message's frame, or fails and writes nothing. */
    method SendMessage(m: Message) returns (r: Result<(), WsError>)
      modifies this
      ensures writeError.None? ==> r.Ok? && outgoing == old(outgoing) + [ToFrame(m)]
      ensures writeError.Some? ==> r == Err(ConnectionFailed(writeError.value)) && outgoing == old(outgoing)
      ensures incoming == old(incoming)
    {
      if writeError.Some? {
        return Err(ConnectionFailed(writeError.value));
      }
      outgoing := outgoing + [ToFrame(m)];
      r := Ok(());
    }

    /** `send_text`. */
    method SendText(text: string) returns (r: Result<(), WsError>)
      modifies this
      ensures writeError.None? ==> r.Ok? && outgoing == old(outgoing) + [TextFrame(text)]
      ensures writeError.Some? ==> r.Err? && outgoing == old(outgoing)
      ensures incoming == old(incoming)
    {
      r := SendMessage(TextMessage(text));
    }

    /** `send_binary`. */
    method SendBinary(bytes: seq<byte>) returns (r: Result<(), WsError>)
      modifies this
      ensures writeError.None? ==> r.Ok? && outgoing == old(outgoing) + [BinaryFrame(bytes)]
      ensures writeError.Some? ==> r.Err? && outgoing == old(outgoing)
      ensures incoming == old(incoming)
    {
      r := SendMessage(BinaryMessage(bytes));
    }

    /** `send`: the value as JSON text, or the encoder's failure, with nothing written. */
    method Send<T>(value: T, encode: T -> Result<string, string>) returns (r: Result<(), WsError>)
      modifies this
      ensures encode(value).Err? ==> r == Err(FailToEncodePayload(encode(value).error)) && outgoing == old(outgoing)
      ensures encode(value).Ok? && writeError.None? ==> r.Ok? && outgoing == old(outgoing) + [TextFrame(encode(value).value)]
      ensures writeError.Some? ==> r.Err? && outgoing == old(outgoing)
      ensures incoming == old(incoming)
    {
      var payload := encode(value);
      if payload.Err? {
        return Err(FailToEncodePayload(payload.error));
      }
      r := SendText(payload.value);
    }

    /** `close`: writes a close frame. */
    method CloseSocket() returns (r: Result<(), WsError>)
      modifies this
      ensures writeError.None? ==> r.Ok? && outgoing == old(outgoing) + [Close]
      ensures writeError.Some? ==> r == Err(ConnectionFailed(writeError.value)) && outgoing == old(outgoing)
      ensures incoming == old(incoming)
    {
      if writeError.Some? {
        return Err(ConnectionFailed(writeError.value));
      }
      outgoing := outgoing + [Close];
      r := Ok(());
    }

    /**
     * The native `recv`: reads frames until one is a message, a close, an
     * error or the end of the stream, answering each ping on the way.
     */
    method Receive() returns (r: Result<Option<Message>, WsError>)
      modifies this
      ensures r == Recv(old(incoming), writeError).result && incoming == Recv(old(incoming), writeError).rest
      ensures outgoing == old(outgoing) + Pongs(Recv(old(incoming), writeError).pongs)
    {
      ghost var sent: seq<seq<byte>> := [];
      while incoming != []
        invariant Recv(old(incoming), writeError) == Then(sent, Recv(incoming, writeError))
        invariant outgoing == old(outgoing) + Pongs(sent)
        decreases |incoming|
      {
        var frame := incoming[0];
        ghost var before := incoming;
        RecvStep(incoming, writeError);
        incoming := incoming[1..];
        if frame.Err? {
          StopsThen(sent, before, writeError);
          return Err(ConnectionFailed(frame.error));
        }
        match frame.value
        case TextFrame(t) =>
          StopsThen(sent, before, writeError);
          return Ok(Some(Text(t)));
        case BinaryFrame(b) =>
          StopsThen(sent, before, writeError);
          return Ok(Some(Binary(b)));
        case Close =>
          StopsThen(sent, before, writeError);
          return Ok(None);
        case Ping(payload) =>
          if writeError.Some? {
            StopsThen(sent, before, writeError);
            return Err(ConnectionFailed(writeError.value));
          }
          outgoing := outgoing + [Pong(payload)];
          PongsSnoc(sent, payload);
          ThenSnoc(sent, payload, Recv(incoming, writeError));
          sent := sent + [payload];
        case Pong(_) =>
        case Raw =>
      }
      assert Recv(incoming, writeError) == Received(Ok(None), [], []);
      assert sent + [] == sent;
      r := Ok(None);
    }
  }

  /** What `recv` returns after having sent pongs for `sent`. */
  function Then(sent: seq<seq<byte>>, r: Received): Received {
    r.(pongs := sent + r.pongs)
  }

  lemma ThenSnoc(sent: seq<seq<byte>>, p: seq<byte>, r: Received)
    ensures Then(sent, r.(pongs := [p] + r.pongs)) == Then(sent + [p], r)
  {
    assert sent + ([p] + r.pongs) == (sent + [p]) + r.pongs;
  }

  /** Where a stopping frame ends the loop, the pongs sent are all there are. */
  lemma StopsThen(sent: seq<seq<byte>>, frames: seq<Incoming>, writeError: Option<string>)
    requires frames != [] && Stops(frames[0], writeError)
    ensures Then(sent, Received(Answer(frames[0], writeError), frames[1..], [])) == Received(Answer(frames[0], writeError), frames[1..], sent)
  {
    assert sent + [] == sent;
  }

  /** One frame of the `recv` loop. */
  lemma RecvStep(frames: seq<Incoming>, writeError: Option<string>)
    requires frames != []
    ensures Stops(frames[0], writeError) ==> Recv(frames, writeError) == Received(Answer(frames[0], writeError), frames[1..], [])
    ensures !Stops(frames[0], writeError) && frames[0].value.Ping? ==>
      Recv(frames, writeError) == Recv(frames[1..], writeError).(pongs := [frames[0].value.payload] + Recv(frames[1..], writeError).pongs)
    ensures !Stops(frames[0], writeError) && !frames[0].value.Ping? ==> Recv(frames, writeError) == Recv(frames[1..], writeError)
  {
  }

  /** The pong frames for some payloads. */
  function Pongs(payloads: seq<seq<byte>>): (fs: seq<Frame>)
    ensures |fs| == |payloads|
    ensures forall i :: 0 <= i < |payloads| ==> fs[i] == Pong(payloads[i])
  {
    seq(|payloads|, i requires 0 <= i < |payloads| => Pong(payloads[i]))
  }

  lemma PongsSnoc(payloads: seq<seq<byte>>, p: seq<byte>)
    ensures Pongs(payloads + [p]) == Pongs(payloads) + [Pong(p)]
  {
  }
}
