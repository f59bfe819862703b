/** The server's side of a connection (transport/server_transport.go): read a frame, handle it,
    write the response, until the stream ends. */
module ServerTransport {
  import opened Wrappers
  import opened Codec
  import opened Codes
  import opened Service
  import opened Sessions
  import opened Streams
  import opened Transport
  import ServicePath

  /** `addRspHeader`: the response message for what the service answered. */
  function WithHeader(answer: Result<bytes, Error>): Response {
    match answer
    case Ok(payload) => Response(OK, "success", payload)
    case Err(Coded(code, _, message)) => Response(code, message, [])
    case Err(Foreign(_)) => Response(SERVER_INTERNAL_ERROR, SERVER_INTERNAL_MESSAGE, [])
  }

  /** The return code for any request bytes at all. Only an answer of a handler (or its coded error
      with code 0) is sent as a success. Of the requests that reach no handler, those with a malformed
      path get code 301 and all others code 100, without payload. */
  lemma ReturnCodeIff<S(!new), Q(!new), P(!new)>(
      config: Config<S, Q, P>, handlers: Handlers<S, Q, P>, s: S, reqBuf: bytes)
    requires PlainErrors(config.wire.requests)
    ensures var response := WithHeader(Handled(config, handlers, s, reqBuf).1);
            var decoded := config.wire.requests.unmarshal(reqBuf);
            var reached := exists request, method' :: Reaches(config, handlers, reqBuf, request, method');
            && (response.retCode == OK <==>
                  exists request, method' :: Reaches(config, handlers, reqBuf, request, method')
                    && var answer := Executed(config, handlers[method'], s, request).1;
                       answer.Ok? || (answer.error.Coded? && answer.error.code == OK))
            && (!reached && response.retCode == CLIENT_MSG_ERROR <==>
                  decoded.Ok? && !ServicePath.IsServicePath(decoded.value.servicePath))
            && (!reached && response.retCode == SERVER_INTERNAL_ERROR <==>
                  decoded.Err? || (ServicePath.IsServicePath(decoded.value.servicePath) && !reached))
            && (!reached ==> response.payload == [])
  {
    HandledIff(config, handlers, s, reqBuf);
    var decoded := config.wire.requests.unmarshal(reqBuf);
    if decoded.Ok? {
      ServicePath.ParsesIff(decoded.value.servicePath);
    }
    hide Executed, Handled;
    forall request, method' | Reaches(config, handlers, reqBuf, request, method')
      ensures ServicePath.IsServicePath(request.servicePath)
    {
      RenderedIsServicePath(request.servicePath, method');
    }
  }

  lemma RenderedIsServicePath(path: string, method': string)
    requires exists service :: path == ServicePath.Render(service, method')
    ensures ServicePath.IsServicePath(path)
  {
    var service :| path == ServicePath.Render(service, method');
    assert path[1..][|service|] == '/';
  }

  /** What is done for one request frame: the new state, and the bytes written, none if the response
      message cannot be marshalled. */
  function Respond<S, Q, P>(
      config: Config<S, Q, P>, handlers: Handlers<S, Q, P>, s: S, frame: bytes): (r: (S, bytes))
    requires FRAME_HEAD_LEN <= |frame|
  {
    var (state, answer) := Handled(config, handlers, s, Decoded(frame));
    match config.wire.responses.marshal(WithHeader(answer))
    case Err(_) => (state, [])
    case Ok(message) => (state, Encoded(message))
  }

  /** This server as the sessions of a connection see it. */
  function Responder<S, Q, P>(config: Config<S, Q, P>, handlers: Handlers<S, Q, P>): Server<S> {
    (s: S, frame: bytes) => if |frame| < FRAME_HEAD_LEN then (s, []) else Respond(config, handlers, s, frame)
  }

  method HandleFrame<S, Q, P>(service: Service<S, Q, P>, frame: array<byte>) returns (rsp: bytes)
    requires FRAME_HEAD_LEN <= frame.Length
    modifies service`state
    ensures (service.state, rsp) == Respond(service.config, service.handlers, old(service.state), frame[..])
  {
    var request := frame[FRAME_HEAD_LEN..];
    assert request == Decoded(frame[..]);
    var answer := service.Handle(request);
    var response := AddRspHeader(answer);
    var marshalled := service.config.wire.responses.marshal(response);
    if marshalled.Err? {
      return [];
    }
    rsp := Encode(marshalled.value);
  }

  method AddRspHeader(answer: Result<bytes, Error>) returns (response: Response)
    ensures response == WithHeader(answer)
    ensures answer.Ok? ==> response == Response(OK, "success", answer.value)
    ensures answer.Err? && answer.error.Coded? ==>
              response == Response(answer.error.code, answer.error.message, [])
    ensures answer.Err? && answer.error.Foreign? ==> response == Response(100, "server internal error", [])
  {
    response := Response(OK, "success", if answer.Ok? then answer.value else []);
    if answer.Err? {
      if answer.error.Coded? {
        response := response.(retCode := answer.error.code, retMsg := answer.error.message);
      } else {
        response := response.(retCode := SERVER_INTERNAL_ERROR, retMsg := SERVER_INTERNAL_MESSAGE);
      }
    }
  }

  /** How `handleConn` ends: quietly, because its context was cancelled, or with a read error. */
  datatype ConnEnd = Quiet | Cancelled | ReadFailed(error: ReadError)

  /** One turn of the loop: read a frame and, if there is one, handle it and write the response. */
  method ServeOne<S, Q, P>(service: Service<S, Q, P>, conn: Conn, framer: Framer) returns (err: Option<ReadError>)
    requires framer.Valid() && Fits(conn.outgoing, conn.writeLimit)
    modifies service`state, conn, framer, framer.buffer
    ensures framer.Valid() && (framer.buffer == old(framer.buffer) || fresh(framer.buffer))
    ensures match ParseFrame(old(conn.incoming), conn.ending)
            case Frame(f, rest) =>
              && err == None && conn.incoming == rest
              && var (state, response) := Responder(service.config, service.handlers)(old(service.state), f);
                 service.state == state
                 && conn.outgoing == Capped(old(conn.outgoing) + response, conn.writeLimit)
            case Failed(e, rest) =>
              && err == Some(e) && conn.incoming == rest
              && conn.outgoing == old(conn.outgoing) && service.state == old(service.state)
  {
    var frame;
    frame, err := framer.ReadFrame(conn);
    if err.None? {
      var rsp := HandleFrame(service, frame);
      var _, _ := conn.Write(rsp);
    }
  }

  /** What was done after the first n frames: the state, and what a connection with a limit took. */
  ghost predicate ServedFirst<S>(
      server: Server<S>, s: S, frames: seq<bytes>, n: nat, out: bytes, limit: Option<nat>, state: S, outgoing: bytes)
    requires n <= |frames|
  {
    var (after, responses) := Serve(server, s, frames[..n]);
    state == after && outgoing == Capped(out + Concat(responses), limit)
  }

  lemma NothingServed<S>(server: Server<S>, s: S, frames: seq<bytes>, out: bytes, limit: Option<nat>)
    requires Fits(out, limit)
    ensures ServedFirst(server, s, frames, 0, out, limit, s, out)
  {
    assert frames[..0] == [];
    assert out + [] == out;
  }

  lemma OneMoreServed<S>(
      server: Server<S>, s: S, frames: seq<bytes>, n: nat, out: bytes, limit: Option<nat>, state: S, outgoing: bytes)
    requires n < |frames| && ServedFirst(server, s, frames, n, out, limit, state, outgoing)
    ensures var (next, response) := server(state, frames[n]);
            ServedFirst(server, s, frames, n + 1, out, limit, next, Capped(outgoing + response, limit))
  {
    var (after, responses) := Serve(server, s, frames[..n]);
    var (next, response) := server(state, frames[n]);
    ServeAppend(server, s, frames[..n], [frames[n]]);
    Sessions.ServeOne(server, state, frames[n]);
    ConcatAppend(responses, [response]);
    ConcatOne(response);
    CappedAppend(out + Concat(responses), response, limit);
    hide Serve, Concat, Capped;
    assert frames[..n] + [frames[n]] == frames[..n + 1];
    assert out + Concat(responses) + response == out + (Concat(responses) + response);
  }

  /** The server loop. Whatever the stream, the handlers run and one response is written for each
      leading frame, in order, whether or not a handler failed, and nothing for what follows them. The
      context is checked before each frame, and `live` is how many checks it passes (all if None): if
      these are no more than the frames, just as many are served. A connection that stops taking bytes
      cuts the output off but does not stop the loop, as write errors are only logged. */
  method HandleConn<S, Q, P>(service: Service<S, Q, P>, conn: Conn, live: Option<nat>) returns (end: ConnEnd)
    requires Fits(conn.outgoing, conn.writeLimit)
    modifies service`state, conn
    ensures live.Some? && live.value <= |Frames(old(conn.incoming), conn.ending)| ==>
              var (state, responses) := Serve(Responder(service.config, service.handlers), old(service.state),
                                              Frames(old(conn.incoming), conn.ending)[..live.value]);
              && end == Cancelled && service.state == state
              && conn.outgoing == Capped(old(conn.outgoing) + Concat(responses), conn.writeLimit)
    ensures live.None? || live.value > |Frames(old(conn.incoming), conn.ending)| ==>
              var (state, responses) := Serve(Responder(service.config, service.handlers), old(service.state),
                                              Frames(old(conn.incoming), conn.ending));
              var error := FinalError(old(conn.incoming), conn.ending);
              && end == (if error == Eof then Quiet else ReadFailed(error)) && service.state == state
              && conn.outgoing == Capped(old(conn.outgoing) + Concat(responses), conn.writeLimit)
  {
    hide ParseFrame, Frames, FinalError, Responder, Concat, Capped, Serve, ServedFirst;
    ghost var s, in', ending, out := service.state, conn.incoming, conn.ending, conn.outgoing;
    ghost var server, frames := Responder(service.config, service.handlers), Frames(in', ending);
    var framer := new Framer();
    var served := 0;
    NothingServed(server, s, frames, out, conn.writeLimit);
    while true
      invariant framer.Valid() && fresh(framer) && fresh(framer.buffer)
      invariant Fits(conn.outgoing, conn.writeLimit)
      invariant served <= |frames| && (live.Some? ==> served <= live.value)
      invariant Frames(conn.incoming, ending) == frames[served..]
      invariant FinalError(conn.incoming, ending) == FinalError(in', ending)
      invariant ServedFirst(server, s, frames, served, out, conn.writeLimit, service.state, conn.outgoing)
      decreases |frames| - served
    {
      if live == Some(served) {
        ServedFirstIs(server, s, frames, served, out, conn.writeLimit, service.state, conn.outgoing);
        return Cancelled;
      }
      FirstFrame(conn.incoming, ending);
      ghost var state, outgoing := service.state, conn.outgoing;
      var err := ServeOne(service, conn, framer);
      if err.Some? {
        assert frames[..served] == frames;
        ServedFirstIs(server, s, frames, served, out, conn.writeLimit, service.state, conn.outgoing);
        return if err == Some(Eof) then Quiet else ReadFailed(err.value);
      }
      assert frames[served..][1..] == frames[served + 1..];
      OneMoreServed(server, s, frames, served, out, conn.writeLimit, state, outgoing);
      served := served + 1;
    }
  }

  lemma ServedFirstIs<S>(
      server: Server<S>, s: S, frames: seq<bytes>, n: nat, out: bytes, limit: Option<nat>, state: S, outgoing: bytes)
    requires n <= |frames| && ServedFirst(server, s, frames, n, out, limit, state, outgoing)
    ensures var (after, responses) := Serve(server, s, frames[..n]);
            state == after && outgoing == Capped(out + Concat(responses), limit)
  {
  }
}
