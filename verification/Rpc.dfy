/** Calls through the whole pipeline, compared with calling the handlers directly. */
module Rpc {
  import opened Wrappers
  import opened Codec
  import opened Codes
  import opened Interceptors
  import opened Service
  import opened Sessions
  import opened Streams
  import opened ServerTransport
  import opened Client
  import opened Transport
  import ServicePath

  // ----- The reference: a direct call -----

  /** The handler's own result, with no network in between. */
  function Called<S, Q, P>(config: Config<S, Q, P>, handlers: Handlers<S, Q, P>, s: S, md: Metadata,
                           method': string, dec: Result<Q, Error>): Reply<S, P>
  {
    if method' !in handlers then Reply(s, Err(Foreign("handlers is nil")))
    else handlers[method'](s, md, dec, config.interceptors)
  }

  /** How a failure on the server reaches the caller: a coded error keeps its code and message and
      becomes a business error, any other error becomes code 100. A coded error with code 0 is sent
      as a success without payload, which the caller then refuses. */
  function Reported<P>(e: Error): Result<P, Error> {
    match e
    case Coded(code, _, message) => if code == OK then Err(EMPTY_INPUT) else Err(Coded(code, BusyError, message))
    case Foreign(_) => Err(Coded(SERVER_INTERNAL_ERROR, BusyError, SERVER_INTERNAL_MESSAGE))
  }

  /** What the caller gets for a handler's result. */
  function Delivered<Q, P>(wire: Wire<Q, P>, direct: Result<P, Error>): Result<P, Error> {
    match direct
    case Err(e) => Reported(e)
    case Ok(reply) =>
      match wire.replies.marshal(reply)
      case Err(e) => Reported(e)
      case Ok(payload) => if payload == [] then Err(EMPTY_INPUT) else Ok(reply)
  }

  // ----- One call -----

  datatype RpcCall<+Q> = RpcCall(service: string, method': string, metadata: Metadata, req: Q)

  function Body<Q, P>(wire: Wire<Q, P>, auths: seq<Metadata>, c: RpcCall<Q>): Result<bytes, Error> {
    RequestBody(wire, c.service, c.method', auths, c.metadata, c.req)
  }

  /** What the handler answers to the caller's own message in state s. */
  function DirectAnswer<S, Q, P>(
      config: Config<S, Q, P>, handlers: Handlers<S, Q, P>, auths: seq<Metadata>, c: RpcCall<Q>, s: S): Reply<S, P>
  {
    Called(config, handlers, s, Merged(c.metadata, auths), c.method', Ok(c.req))
  }

  /** What the handler answers to what arrives: a message with an empty encoding does not. */
  function ServedAnswer<S, Q, P>(
      config: Config<S, Q, P>, handlers: Handlers<S, Q, P>, auths: seq<Metadata>, c: RpcCall<Q>, s: S): Reply<S, P>
  {
    Called(config, handlers, s, Merged(c.metadata, auths), c.method',
           if config.wire.queries.marshal(c.req) == Ok([]) then Err(EMPTY_INPUT) else Ok(c.req))
  }

  /** The service's answer in bytes. */
  function Answer<S, Q, P>(config: Config<S, Q, P>, direct: Result<P, Error>): Result<bytes, Error> {
    match direct
    case Err(e) => Err(e)
    case Ok(reply) => config.wire.replies.marshal(reply)
  }

  /** The request can be put on the wire: a method without slashes, and at most 4 MiB. */
  ghost predicate Arrives<S, Q, P>(config: Config<S, Q, P>, auths: seq<Metadata>, c: RpcCall<Q>) {
    && '/' !in c.method'
    && Body(config.wire, auths, c).Ok?
    && |Body(config.wire, auths, c).value| <= FRAME_HEAD_LEN + MAX_PAYLOAD_LENGTH
  }

  function MarshalledResponse<S, Q, P>(
      config: Config<S, Q, P>, handlers: Handlers<S, Q, P>, auths: seq<Metadata>, c: RpcCall<Q>, s: S)
    : Result<bytes, Error>
  {
    config.wire.responses.marshal(WithHeader(Answer(config, ServedAnswer(config, handlers, auths, c, s).result)))
  }

  /** And the response, in state s, can be marshalled. */
  ghost predicate Sendable<S, Q, P>(
      config: Config<S, Q, P>, handlers: Handlers<S, Q, P>, auths: seq<Metadata>, c: RpcCall<Q>, s: S)
  {
    Arrives(config, auths, c) && MarshalledResponse(config, handlers, auths, c, s).Ok?
  }

  function ResponseMessage<S, Q, P>(
      config: Config<S, Q, P>, handlers: Handlers<S, Q, P>, auths: seq<Metadata>, c: RpcCall<Q>, s: S): bytes
    requires Sendable(config, handlers, auths, c, s)
  {
    MarshalledResponse(config, handlers, auths, c, s).value
  }

  /** The server runs the handler once, on exactly the caller's method, message and metadata. */
  lemma ServerAnswersDirectly<S, Q(!new), P(!new)>(
      config: Config<S, Q, P>, handlers: Handlers<S, Q, P>, auths: seq<Metadata>, c: RpcCall<Q>, s: S)
    requires Faithful(config.wire) && Arrives(config, auths, c)
    ensures WellFormed(Body(config.wire, auths, c).value)
    ensures var direct := ServedAnswer(config, handlers, auths, c, s);
            Handled(config, handlers, s, Decoded(Body(config.wire, auths, c).value))
            == (direct.state, Answer(config, direct.result))
  {
    var wire := config.wire;
    var payload := wire.queries.marshal(c.req).value;
    var request := Request(ServicePath.Render(c.service, c.method'), payload, Merged(c.metadata, auths));
    var message := wire.requests.marshal(request).value;
    assert Body(wire, auths, c).value == Encoded(message);
    EncodedLayout(message);
    EncodedRoundTripIff(message, [], Eof);
    ServicePath.ParseRenderedIff(c.service, c.method');
    assert wire.requests.unmarshal(message) == Ok(request);
  }

  /** The caller reads the handler's result out of the response frame. */
  lemma ResponseIsUnderstood<S, Q(!new), P(!new)>(
      config: Config<S, Q, P>, handlers: Handlers<S, Q, P>, auths: seq<Metadata>, c: RpcCall<Q>, s: S)
    requires Faithful(config.wire) && Sendable(config, handlers, auths, c, s)
    ensures Understood(config.wire, Encoded(ResponseMessage(config, handlers, auths, c, s)))
            == Delivered(config.wire, ServedAnswer(config, handlers, auths, c, s).result)
  {
    var response := WithHeader(Answer(config, ServedAnswer(config, handlers, auths, c, s).result));
    EncodedLayout(ResponseMessage(config, handlers, auths, c, s));
    assert config.wire.responses.unmarshal(ResponseMessage(config, handlers, auths, c, s)) == Ok(response);
  }

  /** The frame the client's transport reads off what comes back. */
  function FirstAnswer(output: bytes, ending: Ending): (answer: Result<bytes, Error>)
    ensures answer.Ok? ==> FRAME_HEAD_LEN <= |answer.value|
  {
    match ParseFrame(output, ending)
    case Frame(f, _) => Ok(f)
    case Failed(e, _) => Err(ReadFailure(e))
  }

  /** A connection of its own to the server, as the client's transport sees it: the server's loop runs
      over what is sent, and the first frame of what it writes comes back. */
  function Network<S(!new), Q, P>(
      config: Config<S, Q, P>, handlers: Handlers<S, Q, P>, ending: Ending): (send: Sender<S>)
    ensures AnswersInFrames(send)
  {
    (s: S, sent: bytes) =>
      var (state, output) := Loop(Responder(config, handlers), s, sent);
      (state, FirstAnswer(output, ending))
  }

  /** A call over that network, made in state s. */
  function Remote<S(!new), Q, P>(
      config: Config<S, Q, P>, handlers: Handlers<S, Q, P>, auths: seq<Metadata>, c: RpcCall<Q>, s: S, ending: Ending)
    : Reply<S, P>
  {
    Invoked(config.wire, c.service, c.method', auths, Network(config, handlers, ending),
            Outgoing(s, c.metadata, c.req))
  }

  /** The code of both ends put together, on a connection used before, is one turn of a session: the
      server's loop goes on with what it has not made a frame of yet and what the client writes now,
      and the client goes on reading what has not been read. */
  method CallOn<S(!new), Q, P>(
      service: Service<S, Q, P>, tail: bytes, unread: bytes, req: bytes, done: bool, limit: Option<nat>,
      ending: Ending, serverReads: seq<nat>, clientReads: seq<nat>)
    returns (rest: bytes, result: Result<bytes, SendError>)
    modifies service`state
    ensures var fate := FateOf([], req, limit, done);
            Call(Responder(service.config, service.handlers), Link(old(service.state), tail, unread, true),
                 Turn(req, fate), ending)
            == (Link(service.state, Leftover(tail + Written(req, fate), Eof), rest, !MarksUnusable(result)), result)
  {
    hide Frames, Leftover, Outcome, Responder, FateOf, Concat;
    var fate := FateOf([], req, limit, done);
    var serverEnd := new Conn(tail + Written(req, fate), Eof, serverReads, None);
    var _ := HandleConn(service, serverEnd, None);
    EverythingServed(Frames(tail + Written(req, fate), Eof));
    var clientEnd := new Conn(unread + serverEnd.outgoing, ending, clientReads, limit);
    var frame, err := Exchange(clientEnd, req, done);
    rest := clientEnd.incoming;
    result := if err.None? then Ok(frame[..]) else Err(err.value);
  }

  lemma EverythingServed(frames: seq<bytes>)
    ensures frames[..|frames|] == frames
    ensures forall out: bytes :: [] + out == out
  {
  }

  /** And on a connection of its own it is that network. */
  method CallOver<S(!new), Q, P>(
      service: Service<S, Q, P>, req: bytes, ending: Ending, serverReads: seq<nat>, clientReads: seq<nat>)
    returns (result: Result<bytes, Error>)
    modifies service`state
    ensures (service.state, result) == Network(service.config, service.handlers, ending)(old(service.state), req)
  {
    hide Frames, Leftover, ParseFrame, Responder, Call;
    var _, answer := CallOn(service, [], [], req, false, None, ending, serverReads, clientReads);
    FirstTurn(Responder(service.config, service.handlers), old(service.state), req, ending);
    if answer.Ok? {
      return Ok(answer.value);
    }
    result := if answer.error.NoFrame? then Err(ReadFailure(answer.error.error)) else Err(Foreign("context"));
  }

  /** A call that waits, on a new connection. */
  lemma FirstTurn<S>(server: Server<S>, s: S, body: bytes, ending: Ending)
    ensures var (link, result) := Call(server, NewLink(s), Turn(body, Awaited), ending);
            var (state, output) := Loop(server, s, body);
            && link.state == state
            && result == match ParseFrame(output, ending)
                         case Frame(f, _) => Ok(f)
                         case Failed(e, _) => Err(NoFrame(e))
  {
    hide Frames, Leftover, ParseFrame, Serve, Concat;
    assert [] + body == body;
    var output := Loop(server, s, body).1;
    assert [] + output == output;
  }

  lemma LoopOfOne<S>(server: Server<S>, s: S, body: bytes)
    requires WellFormed(body)
    ensures Loop(server, s, body) == server(s, body)
  {
    OneFrame(body);
    hide Frames, WellFormed, Serve;
    Sessions.ServeOne(server, s, body);
    ConcatOne(server(s, body).1);
  }

  /** A call over the byte stream refines a direct call: with reversible serializers on both ends, the
      caller gets what the handler's own result delivers, and the handlers' state is what one direct
      call leaves. A response of more than 4 MiB (but below the 2^32 the header can announce) is
      reported as such. */
  lemma RpcRefinesDirectCall<S(!new), Q(!new), P(!new)>(
      config: Config<S, Q, P>, handlers: Handlers<S, Q, P>, auths: seq<Metadata>, c: RpcCall<Q>, s: S, ending: Ending)
    requires Faithful(config.wire) && Sendable(config, handlers, auths, c, s)
    requires |ResponseMessage(config, handlers, auths, c, s)| < 0x1_0000_0000
    ensures var direct := ServedAnswer(config, handlers, auths, c, s);
            Remote(config, handlers, auths, c, s, ending)
            == Reply(direct.state,
                     if |ResponseMessage(config, handlers, auths, c, s)| <= MAX_PAYLOAD_LENGTH
                     then Delivered(config.wire, direct.result)
                     else Err(ReadFailure(PayloadTooLarge)))
  {
    var body := Body(config.wire, auths, c).value;
    var message := ResponseMessage(config, handlers, auths, c, s);
    ServerAnswersDirectly(config, handlers, auths, c, s);
    assert Responder(config, handlers)(s, body)
        == (ServedAnswer(config, handlers, auths, c, s).state, Encoded(message));
    hide Responder, WellFormed, ParseFrame, Understood, Delivered, ServedAnswer, Encoded, Handled, Loop;
    LoopOfOne(Responder(config, handlers), s, body);
    EncodedRoundTripIff(message, [], ending);
    assert Encoded(message) + [] == Encoded(message);
    ResponseIsUnderstood(config, handlers, auths, c, s);
  }

  /** Any other call is cut off: the server ends the connection at a request of more than 4 MiB and
      runs no handler; for a response it cannot marshal the handler has run, but nothing is written. */
  lemma OtherCallsAreCutOff<S(!new), Q(!new), P(!new)>(
      config: Config<S, Q, P>, handlers: Handlers<S, Q, P>, auths: seq<Metadata>, c: RpcCall<Q>, s: S, ending: Ending)
    requires Faithful(config.wire) && Body(config.wire, auths, c).Ok? && '/' !in c.method'
    requires |Body(config.wire, auths, c).value| < 0x1_0000_0000 && !Sendable(config, handlers, auths, c, s)
    ensures Remote(config, handlers, auths, c, s, ending)
            == Reply(if Arrives(config, auths, c) then ServedAnswer(config, handlers, auths, c, s).state else s,
                     Err(ReadFailure(ending)))
  {
    var body := Body(config.wire, auths, c).value;
    var payload := config.wire.queries.marshal(c.req).value;
    var request := Request(ServicePath.Render(c.service, c.method'), payload, Merged(c.metadata, auths));
    var message := config.wire.requests.marshal(request).value;
    EmptyStream(ending);
    if Arrives(config, auths, c) {
      ServerAnswersDirectly(config, handlers, auths, c, s);
      assert Responder(config, handlers)(s, body) == (ServedAnswer(config, handlers, auths, c, s).state, []);
      hide Responder, WellFormed, ServedAnswer, Encoded, Handled, Loop;
      LoopOfOne(Responder(config, handlers), s, body);
    } else {
      FramesOfPrefix(message, body);
      hide Responder, WellFormed, Encoded, Frames;
      assert Loop(Responder(config, handlers), s, body) == (s, []);
    }
  }

  // ----- What comes of it for the caller -----

  /** The caller gets a reply exactly when the handler answers the caller's own message with one, both
      messages have non-empty encodings, and the response has at most 4 MiB. It is then the handler's
      reply: no failure is ever taken for a success. */
  lemma SuccessIff<S(!new), Q(!new), P(!new)>(
      config: Config<S, Q, P>, handlers: Handlers<S, Q, P>, auths: seq<Metadata>, c: RpcCall<Q>, s: S, ending: Ending)
    requires Faithful(config.wire) && Sendable(config, handlers, auths, c, s)
    requires |ResponseMessage(config, handlers, auths, c, s)| < 0x1_0000_0000
    requires c.method' in handlers ==> DecodesFirst(handlers[c.method'])
    ensures var result := Remote(config, handlers, auths, c, s, ending).result;
            var direct := DirectAnswer(config, handlers, auths, c, s).result;
            && (result.Ok? <==>
                  && direct.Ok?
                  && config.wire.queries.marshal(c.req) != Ok([])
                  && config.wire.replies.marshal(direct.value).Ok?
                  && config.wire.replies.marshal(direct.value) != Ok([])
                  && |ResponseMessage(config, handlers, auths, c, s)| <= MAX_PAYLOAD_LENGTH)
            && (result.Ok? ==> result == direct)
  {
    hide Remote, Sendable, ResponseMessage, Faithful;
    RpcRefinesDirectCall(config, handlers, auths, c, s, ending);
  }

  /** An error of the handler reaches the caller with its own code and message (as a business error)
      exactly when it is coded, the code is not 0, and the response has at most 4 MiB; any other error
      reaches it as code 100 under the same bound. */
  lemma CodePreservedIff<S(!new), Q(!new), P(!new)>(
      config: Config<S, Q, P>, handlers: Handlers<S, Q, P>, auths: seq<Metadata>, c: RpcCall<Q>, s: S,
      e: Error, ending: Ending)
    requires Faithful(config.wire) && Sendable(config, handlers, auths, c, s)
    requires |ResponseMessage(config, handlers, auths, c, s)| < 0x1_0000_0000
    requires ServedAnswer(config, handlers, auths, c, s).result == Err(e)
    ensures var result := Remote(config, handlers, auths, c, s, ending).result;
            var fits := |ResponseMessage(config, handlers, auths, c, s)| <= MAX_PAYLOAD_LENGTH;
            && result.Err?
            && (e.Coded? ==> (result == Err(e.(kind := BusyError)) <==> e.code != OK && fits))
            && (e.Foreign? ==>
                  (result == Err(Coded(SERVER_INTERNAL_ERROR, BusyError, SERVER_INTERNAL_MESSAGE)) <==> fits))
  {
    hide Remote, Sendable, ResponseMessage, Faithful, ServedAnswer;
    RpcRefinesDirectCall(config, handlers, auths, c, s, ending);
  }

  // ----- Methods registered by reflection -----

  /** No caller can tell apart two methods registered by reflection that give the same replies: their
      errors change no byte of what the server writes, whatever it is sent. */
  lemma ReflectedErrorsAreInvisible<S(!new), Q(!new), P(!new)>(
      config: Config<S, Q, P>, handlers: Handlers<S, Q, P>, name: string,
      f: Incoming<S, Q> -> Returned<S, P>, g: Incoming<S, Q> -> Returned<S, P>, s: S, sent: bytes)
    requires (forall req :: ReplyAlike(f, g, req)) && forall c | c in config.interceptors :: OnlyCalls(c)
    ensures Loop(Responder(config, handlers[name := ReflectedHandler(f)]), s, sent)
            == Loop(Responder(config, handlers[name := ReflectedHandler(g)]), s, sent)
  {
    var withF, withG := handlers[name := ReflectedHandler(f)], handlers[name := ReflectedHandler(g)];
    forall state: S, frame: bytes
      ensures Responder(config, withF)(state, frame) == Responder(config, withG)(state, frame)
    {
      if FRAME_HEAD_LEN <= |frame| {
        SameHandled(config, handlers, name, f, g, state, Decoded(frame));
        SameResponse(config, withF, withG, state, frame);
      }
    }
    hide Responder, Frames, Serve;
    SameServed(Responder(config, withF), Responder(config, withG), s, Frames(sent, Eof));
  }

  lemma SameResponse<S, Q, P>(
      config: Config<S, Q, P>, a: Handlers<S, Q, P>, b: Handlers<S, Q, P>, s: S, frame: bytes)
    requires FRAME_HEAD_LEN <= |frame| && Handled(config, a, s, Decoded(frame)) == Handled(config, b, s, Decoded(frame))
    ensures Responder(config, a)(s, frame) == Responder(config, b)(s, frame)
  {
    hide Handled;
  }

  lemma SameHandled<S(!new), Q(!new), P(!new)>(
      config: Config<S, Q, P>, handlers: Handlers<S, Q, P>, name: string,
      f: Incoming<S, Q> -> Returned<S, P>, g: Incoming<S, Q> -> Returned<S, P>, s: S, reqBuf: bytes)
    requires (forall req :: ReplyAlike(f, g, req)) && forall c | c in config.interceptors :: OnlyCalls(c)
    ensures Handled(config, handlers[name := ReflectedHandler(f)], s, reqBuf)
            == Handled(config, handlers[name := ReflectedHandler(g)], s, reqBuf)
  {
    var decoded := config.wire.requests.unmarshal(reqBuf);
    if decoded.Ok? {
      ReflectedErrorIsLost(f, g, s, decoded.value.metadata,
                           config.wire.queries.unmarshal(decoded.value.payload), config.interceptors);
    }
    hide ReflectedHandler, OnlyCalls, ReplyAlike, ServicePath.Parse;
  }

  lemma {:induction false} SameServed<S(!new)>(a: Server<S>, b: Server<S>, s: S, frames: seq<bytes>)
    requires forall state, frame :: a(state, frame) == b(state, frame)
    ensures Serve(a, s, frames) == Serve(b, s, frames)
    decreases |frames|
  {
    if frames == [] {
    } else {
      SameServed(a, b, a(s, frames[0]).0, frames[1..]);
    }
  }

  /** What a method returns by itself. */
  function OwnResult<S, P>(r: Returned<S, P>): Result<P, Error> {
    if r.error.None? then Ok(r.reply) else Err(r.error.value)
  }

  /** The reply fails to be delivered in just the way the error would be reported. */
  predicate FailsAlike<Q, P>(wire: Wire<Q, P>, reply: P, e: Error) {
    match wire.replies.marshal(reply)
    case Err(_) => e.Foreign? || (e.code == SERVER_INTERNAL_ERROR && e.message == SERVER_INTERNAL_MESSAGE)
    case Ok(payload) => payload == [] && e.Coded? && e.code == OK
  }

  lemma FailsAlikeIff<Q, P(!new)>(wire: Wire<Q, P>, reply: P, e: Error)
    requires PlainErrors(wire.replies)
    ensures Delivered(wire, Ok(reply)) == Delivered(wire, Err(e)) <==> FailsAlike(wire, reply, e)
  {
  }

  /** Inside interceptors that pass calls and outcomes on, the method runs once, in the state and under
      the metadata they make, but on the caller's own request. */
  lemma ReflectedMethodRuns<S(!new), Q(!new), P(!new)>(
      config: Config<S, Q, P>, handlers: Handlers<S, Q, P>, auths: seq<Metadata>, c: RpcCall<Q>, s: S,
      f: Incoming<S, Q> -> Returned<S, P>, changes: seq<Incoming<S, Q> -> Incoming<S, Q>>)
    requires c.method' in handlers && handlers[c.method'] == ReflectedHandler(f)
    requires config.interceptors == PassingAll(changes)
    requires config.wire.queries.marshal(c.req) != Ok([])
    ensures var passed := Through(changes, Incoming(s, Merged(c.metadata, auths), c.req));
            var own := f(Incoming(passed.state, passed.metadata, c.req));
            ServedAnswer(config, handlers, auths, c, s) == Reply(own.state, Ok(own.reply))
  {
    PassingChain(changes, ReflectedCall(f, c.req), Incoming(s, Merged(c.metadata, auths), c.req));
    hide Merged;
  }

  /** So the caller of a method registered by reflection gets the method's reply whether or not the
      method failed, and its own result exactly when it returned no error (or the reply cannot be
      delivered and the error would have looked the same). */
  lemma ReflectedResultIff<S(!new), Q(!new), P(!new)>(
      config: Config<S, Q, P>, handlers: Handlers<S, Q, P>, auths: seq<Metadata>, c: RpcCall<Q>, s: S,
      f: Incoming<S, Q> -> Returned<S, P>, changes: seq<Incoming<S, Q> -> Incoming<S, Q>>, ending: Ending)
    requires Faithful(config.wire) && PlainErrors(config.wire.replies) && Sendable(config, handlers, auths, c, s)
    requires |ResponseMessage(config, handlers, auths, c, s)| <= MAX_PAYLOAD_LENGTH
    requires c.method' in handlers && handlers[c.method'] == ReflectedHandler(f)
    requires config.interceptors == PassingAll(changes)
    requires config.wire.queries.marshal(c.req) != Ok([])
    ensures var passed := Through(changes, Incoming(s, Merged(c.metadata, auths), c.req));
            var own := f(Incoming(passed.state, passed.metadata, c.req));
            var remote := Remote(config, handlers, auths, c, s, ending);
            && remote == Reply(own.state, Delivered(config.wire, Ok(own.reply)))
            && (remote.result == Delivered(config.wire, OwnResult(own)) <==>
                  own.error.None? || FailsAlike(config.wire, own.reply, own.error.value))
  {
    ReflectedMethodRuns(config, handlers, auths, c, s, f, changes);
    hide Remote, Sendable, ResponseMessage, ServedAnswer, Merged, Delivered, Through, PassingAll, ReflectedHandler;
    RpcRefinesDirectCall(config, handlers, auths, c, s, ending);
    var passed := Through(changes, Incoming(s, Merged(c.metadata, auths), c.req));
    var own := f(Incoming(passed.state, passed.metadata, c.req));
    if own.error.Some? {
      FailsAlikeIff(config.wire, own.reply, own.error.value);
    }
  }

  // ----- Inside the client's interceptors -----

  /** The innermost step of a client's chain with the network taken out. */
  function DirectInvoker<S, Q, P>(config: Config<S, Q, P>, handlers: Handlers<S, Q, P>, auths: seq<Metadata>,
                                  service: string, method': string): Outgoing<S, Q> -> Reply<S, P>
  {
    (call: Outgoing<S, Q>) =>
      var c := RpcCall(service, method', call.metadata, call.req);
      var direct := ServedAnswer(config, handlers, auths, c, call.state);
      Reply(direct.state, Delivered(config.wire, direct.result))
  }

  /** The call can be put on the wire both ways. */
  ghost predicate Fitting<S, Q, P>(
      config: Config<S, Q, P>, handlers: Handlers<S, Q, P>, auths: seq<Metadata>, c: RpcCall<Q>, s: S)
  {
    && Sendable(config, handlers, auths, c, s)
    && |ResponseMessage(config, handlers, auths, c, s)| <= MAX_PAYLOAD_LENGTH
  }

  /** The same inside the client's interceptors: if these only make calls that can be put on the wire,
      the chain over the network gives what the same chain over the direct call gives. However often
      they call, the handler has run just as often. */
  lemma InterceptedRpcRefinesDirectCall<S(!new), Q(!new), P(!new)>(
      config: Config<S, Q, P>, handlers: Handlers<S, Q, P>, auths: seq<Metadata>, service: string, method': string,
      interceptors: seq<ClientInterceptor<S, Q, P>>, made: Outgoing<S, Q> -> bool, call: Outgoing<S, Q>, ending: Ending)
    requires Faithful(config.wire)
    requires forall o | made(o) ::
               Fitting(config, handlers, auths, RpcCall(service, method', o.metadata, o.req), o.state)
    requires made(call) && forall c | c in interceptors :: StaysWithin(made, c)
    ensures var network := Network(config, handlers, ending);
            Intercept(interceptors, Invoker(config.wire, service, method', auths, network), call)
            == Intercept(interceptors, DirectInvoker(config, handlers, auths, service, method'), call)
  {
    hide StaysWithin, Network, Invoker, DirectInvoker, Intercept, Faithful, Fitting;
    var remote := Invoker(config.wire, service, method', auths, Network(config, handlers, ending));
    var direct := DirectInvoker(config, handlers, auths, service, method');
    forall o | made(o)
      ensures remote(o) == direct(o)
    {
      InvokerIsDirect(config, handlers, auths, service, method', o, ending);
    }
    ChainsAgree(made, interceptors, remote, direct, call);
  }

  lemma InvokerIsDirect<S(!new), Q(!new), P(!new)>(
      config: Config<S, Q, P>, handlers: Handlers<S, Q, P>, auths: seq<Metadata>, service: string, method': string,
      call: Outgoing<S, Q>, ending: Ending)
    requires Faithful(config.wire)
    requires Fitting(config, handlers, auths, RpcCall(service, method', call.metadata, call.req), call.state)
    ensures Invoker(config.wire, service, method', auths, Network(config, handlers, ending))(call)
            == DirectInvoker(config, handlers, auths, service, method')(call)
  {
    hide Sendable, ResponseMessage, Network, Invoked, ServedAnswer, Delivered;
    RpcRefinesDirectCall(
      config, handlers, auths, RpcCall(service, method', call.metadata, call.req), call.state, ending);
  }

  // ----- Many calls on one connection -----

  /** What the caller makes of the result of its turn. */
  function Received<Q, P>(wire: Wire<Q, P>, result: Result<bytes, SendError>): Result<P, Error>
    requires result.Ok? ==> FRAME_HEAD_LEN <= |result.value|
  {
    match result
    case Ok(frame) => Understood(wire, frame)
    case Err(NoFrame(e)) => Err(ReadFailure(e))
    case Err(ContextDone) => Err(Foreign("context"))
  }

  /** The calls that send anything, with their fates. */
  ghost function Turns<S, Q, P>(
      config: Config<S, Q, P>, auths: seq<Metadata>, calls: seq<RpcCall<Q>>, fates: seq<Fate>): (turns: seq<Turn>)
    requires |fates| == |calls| && forall i | 0 <= i < |calls| :: Body(config.wire, auths, calls[i]).Ok?
    ensures |turns| == |calls|
  {
    seq(|calls|, i requires 0 <= i < |calls| => Turn(Body(config.wire, auths, calls[i]).value, fates[i]))
  }

  /** The handlers' state after direct calls, one after the other. */
  function AfterCalls<S, Q, P>(config: Config<S, Q, P>, handlers: Handlers<S, Q, P>, auths: seq<Metadata>,
                               calls: seq<RpcCall<Q>>, t: nat, s: S): S
    requires t <= |calls|
  {
    if t == 0 then s
    else ServedAnswer(config, handlers, auths, calls[t - 1],
                      AfterCalls(config, handlers, auths, calls, t - 1, s)).state
  }

  lemma {:induction false} StatesAreDirect<S, Q(!new), P(!new)>(
      config: Config<S, Q, P>, handlers: Handlers<S, Q, P>, auths: seq<Metadata>, calls: seq<RpcCall<Q>>,
      fates: seq<Fate>, t: nat, s: S)
    requires |fates| == |calls| && forall i | 0 <= i < |calls| :: Body(config.wire, auths, calls[i]).Ok?
    requires Faithful(config.wire) && t <= |calls| && forall u | 0 <= u < t :: Arrives(config, auths, calls[u])
    ensures StateBefore(Responder(config, handlers), s, Turns(config, auths, calls, fates), t)
            == AfterCalls(config, handlers, auths, calls, t, s)
  {
    hide Faithful, Arrives, Body, StateBefore, ServedAnswer, Responder;
    var server, turns := Responder(config, handlers), Turns(config, auths, calls, fates);
    if t == 0 {
      if turns == [] {
        StateAtStart(server, s, turns);
      } else {
        NextState(server, s, turns, 0);
      }
    } else {
      StatesAreDirect(config, handlers, auths, calls, fates, t - 1, s);
      NextState(server, s, turns, t - 1);
      CallRunsOnce(config, handlers, auths, calls[t - 1], AfterCalls(config, handlers, auths, calls, t - 1, s));
    }
  }

  lemma StateAtStart<S>(server: Server<S>, s: S, turns: seq<Turn>)
    ensures StateBefore(server, s, turns, 0) == s
  {
    assert BodiesOf(turns)[..0] == [];
  }

  lemma CallRunsOnce<S, Q(!new), P(!new)>(
      config: Config<S, Q, P>, handlers: Handlers<S, Q, P>, auths: seq<Metadata>, c: RpcCall<Q>, s: S)
    requires Faithful(config.wire) && Arrives(config, auths, c)
    ensures WellFormed(Body(config.wire, auths, c).value)
    ensures Responder(config, handlers)(s, Body(config.wire, auths, c).value).0
            == ServedAnswer(config, handlers, auths, c, s).state
  {
    ServerAnswersDirectly(config, handlers, auths, c, s);
    hide Handled, ServedAnswer;
  }

  /** Each call of a session runs its handler exactly once, in the order sent, whether or not it waits
      for the response: the handlers' state is what the direct calls leave, one after the other. */
  lemma HandlersRunOncePerCall<S, Q(!new), P(!new)>(
      config: Config<S, Q, P>, handlers: Handlers<S, Q, P>, auths: seq<Metadata>, calls: seq<RpcCall<Q>>,
      fates: seq<Fate>, t: nat, s: S, ending: Ending)
    requires |fates| == |calls| && forall i | 0 <= i < |calls| :: Body(config.wire, auths, calls[i]).Ok?
    requires Faithful(config.wire) && t <= |calls|
    requires forall u | 0 <= u < t :: Arrives(config, auths, calls[u]) && !fates[u].WriteFailed?
    ensures LinkAfter(Responder(config, handlers), s, Turns(config, auths, calls, fates)[..t], ending).state
            == AfterCalls(config, handlers, auths, calls, t, s)
  {
    var server, turns := Responder(config, handlers), Turns(config, auths, calls, fates);
    hide Faithful, Arrives, Responder, AfterCalls, LinkAfter, StateBefore, WellFormed, Body;
    StatesAreDirect(config, handlers, auths, calls, fates, t, s);
    forall u | 0 <= u < t
      ensures WellFormed(turns[u].body) && !turns[u].fate.WriteFailed?
    {
      CallRunsOnce(config, handlers, auths, calls[u], s);
    }
    HandlersRunInOrder(server, s, turns, t, ending);
  }

  /** As long as every earlier call on a pooled connection returned a frame, a call that waits gets over
      it what it gets over a network of its own: with RpcRefinesDirectCall, what the direct call
      delivers, in the state that one run of each earlier request leaves. */
  lemma SessionRefinesDirectCalls<S(!new), Q(!new), P(!new)>(
      config: Config<S, Q, P>, handlers: Handlers<S, Q, P>, auths: seq<Metadata>, calls: seq<RpcCall<Q>>,
      fates: seq<Fate>, t: nat, s: S, ending: Ending)
    requires |fates| == |calls| && forall i | 0 <= i < |calls| :: Body(config.wire, auths, calls[i]).Ok?
    requires t < |calls| && fates[t] == Awaited
    requires var server, turns := Responder(config, handlers), Turns(config, auths, calls, fates);
             forall u | 0 <= u < t ::
               && Announceable(server, StateBefore(server, s, turns, u), turns[u].body)
               && ResultAt(server, s, turns, u, ending).Ok?
    ensures var server, turns := Responder(config, handlers), Turns(config, auths, calls, fates);
            var remote := Remote(config, handlers, auths, calls[t], StateBefore(server, s, turns, t), ending);
            && LinkAfter(server, s, turns[..t], ending).usable
            && Received(config.wire, ResultAt(server, s, turns, t, ending)) == remote.result
            && LinkAfter(server, s, turns[..t + 1], ending).state == remote.state
  {
    var server, turns := Responder(config, handlers), Turns(config, auths, calls, fates);
    CleanSessionIsAsNew(server, s, turns, t, ending);
    OneMoreTurn(server, s, turns, t, ending);
    FirstTurn(server, StateBefore(server, s, turns, t), turns[t].body, ending);
    hide ResultAt, LinkAfter, StateBefore, Call, Understood, ParseFrame, Loop, Announceable, Responder;
  }

  /** A call whose context ends by the time its request is written gives the connection back usable
      but with its response still to come, and a later call takes it for its own: a call that waits
      gets what the k-th call should get, if k calls waited before. That is its own exactly when no
      earlier call was given up. */
  lemma AbandonedCallsShiftReplies<S(!new), Q(!new), P(!new)>(
      config: Config<S, Q, P>, handlers: Handlers<S, Q, P>, auths: seq<Metadata>, calls: seq<RpcCall<Q>>,
      fates: seq<Fate>, t: nat, s: S, ending: Ending)
    requires |fates| == |calls| && forall i | 0 <= i < |calls| :: Body(config.wire, auths, calls[i]).Ok?
    requires Faithful(config.wire)
    requires forall i | 0 <= i < |calls| ::
               && !fates[i].WriteFailed?
               && Fitting(config, handlers, auths, calls[i], AfterCalls(config, handlers, auths, calls, i, s))
    requires t < |calls| && fates[t] == Awaited
    ensures var server, turns := Responder(config, handlers), Turns(config, auths, calls, fates);
            var k := Waiters(turns, t);
            && LinkAfter(server, s, turns[..t], ending).usable
            && Received(config.wire, ResultAt(server, s, turns, t, ending))
               == Delivered(config.wire,
                            ServedAnswer(config, handlers, auths, calls[k],
                                         AfterCalls(config, handlers, auths, calls, k, s)).result)
            && (k == t <==> forall u | 0 <= u < t :: fates[u] == Awaited)
  {
    hide *;
    var server, turns := Responder(config, handlers), Turns(config, auths, calls, fates);
    SessionIsOrderly(config, handlers, auths, calls, fates, s);
    TurnsAre(config, auths, calls, fates);
    WaitingTurnTakes(server, s, turns, t, ending);
    ResponseOfTurn(config, handlers, auths, calls, fates, Waiters(turns, t), s);
    ReceivedFrame(config.wire, OwnResponse(server, s, turns, Waiters(turns, t)));
  }

  lemma ReceivedFrame<Q, P>(wire: Wire<Q, P>, frame: bytes)
    requires FRAME_HEAD_LEN <= |frame|
    ensures Received(wire, Ok(frame)) == Understood(wire, frame)
  {
  }

  lemma TurnsAre<S, Q, P>(
      config: Config<S, Q, P>, auths: seq<Metadata>, calls: seq<RpcCall<Q>>, fates: seq<Fate>)
    requires |fates| == |calls| && forall i | 0 <= i < |calls| :: Body(config.wire, auths, calls[i]).Ok?
    ensures forall i | 0 <= i < |calls| ::
              Turns(config, auths, calls, fates)[i] == Turn(Body(config.wire, auths, calls[i]).value, fates[i])
  {
  }

  lemma SessionIsOrderly<S(!new), Q(!new), P(!new)>(
      config: Config<S, Q, P>, handlers: Handlers<S, Q, P>, auths: seq<Metadata>, calls: seq<RpcCall<Q>>,
      fates: seq<Fate>, s: S)
    requires |fates| == |calls| && forall i | 0 <= i < |calls| :: Body(config.wire, auths, calls[i]).Ok?
    requires Faithful(config.wire)
    requires forall i | 0 <= i < |calls| ::
               && !fates[i].WriteFailed?
               && Fitting(config, handlers, auths, calls[i], AfterCalls(config, handlers, auths, calls, i, s))
    ensures Orderly(Responder(config, handlers), s, Turns(config, auths, calls, fates))
  {
    hide Faithful, Fitting, WellFormed, Responder, AfterCalls, OwnResponse, Turns, Body, ServedAnswer, Understood;
    TurnsAre(config, auths, calls, fates);
    forall i | 0 <= i < |calls|
      ensures WellFormed(Turns(config, auths, calls, fates)[i].body)
      ensures WellFormed(OwnResponse(Responder(config, handlers), s, Turns(config, auths, calls, fates), i))
    {
      ResponseOfTurn(config, handlers, auths, calls, fates, i, s);
    }
  }

  lemma ResponseOfTurn<S(!new), Q(!new), P(!new)>(
      config: Config<S, Q, P>, handlers: Handlers<S, Q, P>, auths: seq<Metadata>, calls: seq<RpcCall<Q>>,
      fates: seq<Fate>, i: nat, s: S)
    requires |fates| == |calls| && forall j | 0 <= j < |calls| :: Body(config.wire, auths, calls[j]).Ok?
    requires Faithful(config.wire) && i < |calls|
    requires forall j | 0 <= j <= i ::
               Fitting(config, handlers, auths, calls[j], AfterCalls(config, handlers, auths, calls, j, s))
    ensures var state := AfterCalls(config, handlers, auths, calls, i, s);
            var response := OwnResponse(Responder(config, handlers), s, Turns(config, auths, calls, fates), i);
            && WellFormed(Body(config.wire, auths, calls[i]).value) && WellFormed(response)
            && FRAME_HEAD_LEN <= |response|
            && Understood(config.wire, response)
               == Delivered(config.wire, ServedAnswer(config, handlers, auths, calls[i], state).result)
  {
    hide AfterCalls, Responder, StateBefore, ServedAnswer, Understood, Delivered, Faithful, WellFormed;
    var state := AfterCalls(config, handlers, auths, calls, i, s);
    StatesAreDirect(config, handlers, auths, calls, fates, i, s);
    FittingResponse(config, handlers, auths, calls[i], state);
  }

  lemma FittingResponse<S, Q(!new), P(!new)>(
      config: Config<S, Q, P>, handlers: Handlers<S, Q, P>, auths: seq<Metadata>, c: RpcCall<Q>, s: S)
    requires Faithful(config.wire) && Fitting(config, handlers, auths, c, s)
    ensures var body := Body(config.wire, auths, c).value;
            var response := Responder(config, handlers)(s, body).1;
            && WellFormed(body) && WellFormed(response) && FRAME_HEAD_LEN <= |response|
            && Understood(config.wire, response)
               == Delivered(config.wire, ServedAnswer(config, handlers, auths, c, s).result)
  {
    var message := ResponseMessage(config, handlers, auths, c, s);
    ServerAnswersDirectly(config, handlers, auths, c, s);
    assert Responder(config, handlers)(s, Body(config.wire, auths, c).value).1 == Encoded(message);
    hide Handled, ServedAnswer, Encoded, Responder;
    EncodedRoundTripIff(message, [], Eof);
    ResponseIsUnderstood(config, handlers, auths, c, s);
  }

  /** Response messages never start with the magic byte, which is no tag of theirs. */
  ghost predicate NoMagic(responses: Serializer<Response>) {
    forall r :: responses.marshal(r).Ok? && responses.marshal(r).value != [] ==>
      responses.marshal(r).value[0] != MAGIC
  }

  /** After a response over 4 MiB, which its own caller is told of, the next call on that connection
      fails whatever it is, and the connection stays in use. Its handler runs all the same. */
  lemma OversizeReplyFailsNext<S(!new), Q(!new), P(!new)>(
      config: Config<S, Q, P>, handlers: Handlers<S, Q, P>, auths: seq<Metadata>, c: RpcCall<Q>, next: RpcCall<Q>,
      s: S, ending: Ending)
    requires Faithful(config.wire) && NoMagic(config.wire.responses) && Sendable(config, handlers, auths, c, s)
    requires MAX_PAYLOAD_LENGTH < |ResponseMessage(config, handlers, auths, c, s)| < 0x1_0000_0000
    requires Arrives(config, auths, next)
    ensures var server, body := Responder(config, handlers), Body(config.wire, auths, c).value;
            var (link, result) := Call(server, NewLink(s), Turn(body, Awaited), ending);
            var (link', result') := Call(server, link, Turn(Body(config.wire, auths, next).value, Awaited), ending);
            && Received(config.wire, result) == Err(ReadFailure(PayloadTooLarge)) && link.usable
            && Received(config.wire, result') == Err(ReadFailure(InvalidMagic)) && link'.usable
            && link'.state == ServedAnswer(config, handlers, auths, next,
                                           ServedAnswer(config, handlers, auths, c, s).state).state
  {
    var body, r := Body(config.wire, auths, c).value, ResponseMessage(config, handlers, auths, c, s);
    var server := Responder(config, handlers);
    var payload := config.wire.queries.marshal(c.req).value;
    var request := Request(ServicePath.Render(c.service, c.method'), payload, Merged(c.metadata, auths));
    var message := config.wire.requests.marshal(request).value;
    assert body == Encoded(message);
    ServerAnswersDirectly(config, handlers, auths, c, s);
    assert server(s, body) == (ServedAnswer(config, handlers, auths, c, s).state, Encoded(r));
    assert r[0] != MAGIC;
    hide Handled, ServedAnswer, Encoded, Responder, Call, Sendable, ResponseMessage, Faithful, Arrives;
    OversizeResponseFailsNext(server, s, message, r, Body(config.wire, auths, next).value, ending);
    CallRunsOnce(config, handlers, auths, next, server(s, body).0);
    CallWithFrame(server, Link(server(s, body).0, [], r, true),
                  Turn(Body(config.wire, auths, next).value, Awaited), ending);
  }
}
