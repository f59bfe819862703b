/** The server's dispatch by method name (service.go) over abstract serializers. */
module Service {
  import opened Wrappers
  import opened Codes
  import opened Interceptors
  import ServicePath

  type Metadata = map<string, bytes>

  // ----- Serializers -----

  /** A serialization of one message type. Both directions may fail. */
  datatype Serializer<!T> = Serializer(
    marshal: T -> Result<bytes, Error>,
    unmarshal: bytes -> Result<T, Error>)

  /** What was marshalled unmarshals to the same message. Assumed of the protocol messages, which
      proto.Marshal and proto.Unmarshal convert; they may well have empty encodings. */
  ghost predicate Reversible<T(!new)>(s: Serializer<T>) {
    forall v: T :: s.marshal(v).Ok? ==> s.unmarshal(s.marshal(v).value) == Ok(v)
  }

  const EMPTY_INPUT := Foreign("unmarshal nil or empty bytes")

  /** The serializations of payloads (codec/serialization.go, codec/serialization_msgpack.go) are
      reversible except that they refuse empty input. */
  ghost predicate ReversibleUnlessEmpty<T(!new)>(s: Serializer<T>) {
    && s.unmarshal([]) == Err(EMPTY_INPUT)
    && forall v: T :: s.marshal(v).Ok? && s.marshal(v).value != [] ==> s.unmarshal(s.marshal(v).value) == Ok(v)
  }

  /** A failed conversion is reported by a plain error, not by a coded one. */
  ghost predicate PlainErrors<T(!new)>(s: Serializer<T>) {
    && (forall v: T :: s.marshal(v).Err? ==> s.marshal(v).error.Foreign?)
    && (forall b: bytes :: s.unmarshal(b).Err? ==> s.unmarshal(b).error.Foreign?)
  }

  /** The protocol messages of protocol/msg.proto. */
  datatype Request = Request(servicePath: string, payload: bytes, metadata: Metadata)

  datatype Response = Response(retCode: Code, retMsg: string, payload: bytes)

  // ----- Handlers -----

  /** What a handler works on: the state its methods share, the request's metadata and the decoded
      message. */
  datatype Incoming<+S, +Q> = Incoming(state: S, metadata: Metadata, req: Q)

  /** The state it leaves, and what it answers. */
  datatype Reply<+S, +P> = Reply(state: S, result: Result<P, Error>)

  type ServerInterceptor<!S, !Q, !P> = Interceptor<Incoming<S, Q>, Reply<S, P>>

  /** A registered handler: the state, the metadata in the context, what decoding the payload yields,
      and the interceptors. */
  type Handler<!S, !Q, !P> = (S, Metadata, Result<Q, Error>, seq<ServerInterceptor<S, Q, P>>) -> Reply<S, P>

  /** The handlers the code generator writes: decode, then the method inside the interceptors. */
  function GeneratedHandler<S, Q, P>(method': Incoming<S, Q> -> Reply<S, P>): Handler<S, Q, P> {
    (s: S, md: Metadata, dec: Result<Q, Error>, ceps: seq<ServerInterceptor<S, Q, P>>) =>
      match dec
      case Err(e) => Reply(s, Err(e))
      case Ok(req) => Intercept(ceps, method', Incoming(s, md, req))
  }

  /** What a method registered by reflection returns. */
  datatype Returned<+S, +P> = Returned(state: S, reply: P, error: Option<Error>)

  /** How `RegisterService` calls it: with the request as first decoded, whatever request the
      interceptors pass on; and only the reply is used. */
  function ReflectedCall<S, Q, P>(method': Incoming<S, Q> -> Returned<S, P>, req: Q): Incoming<S, Q> -> Reply<S, P> {
    (in': Incoming<S, Q>) =>
      var r := method'(Incoming(in'.state, in'.metadata, req));
      Reply(r.state, Ok(r.reply))
  }

  /** The handlers `RegisterService` makes by reflection. */
  function ReflectedHandler<S, Q, P>(method': Incoming<S, Q> -> Returned<S, P>): Handler<S, Q, P> {
    (s: S, md: Metadata, dec: Result<Q, Error>, ceps: seq<ServerInterceptor<S, Q, P>>) =>
      match dec
      case Err(e) => Reply(s, Err(e))
      case Ok(req) =>
        if |ceps| == 0 then ReflectedCall(method', req)(Incoming(s, md, req))
        else Intercept(ceps, ReflectedCall(method', req), Incoming(s, md, req))
  }

  /** Handlers that give up when the request's payload cannot be decoded. */
  ghost predicate DecodesFirst<S(!new), Q(!new), P(!new)>(handler: Handler<S, Q, P>) {
    forall s: S, md: Metadata, e: Error, ceps: seq<ServerInterceptor<S, Q, P>> ::
      handler(s, md, Err(e), ceps) == Reply(s, Err(e))
  }

  /** Both kinds do. */
  lemma HandlersDecodeFirst<S(!new), Q(!new), P(!new)>(
      generated: Incoming<S, Q> -> Reply<S, P>, reflected: Incoming<S, Q> -> Returned<S, P>)
    ensures DecodesFirst(GeneratedHandler(generated))
    ensures DecodesFirst(ReflectedHandler(reflected))
  {
  }

  /** The methods reply alike to a request, and do the same to the state, in any state and under any
      metadata. They may differ in their errors, and on every other request. */
  ghost predicate ReplyAlike<S(!new), Q(!new), P(!new)>(
      f: Incoming<S, Q> -> Returned<S, P>, g: Incoming<S, Q> -> Returned<S, P>, req: Q)
  {
    forall s: S, md: Metadata ::
      && f(Incoming(s, md, req)).state == g(Incoming(s, md, req)).state
      && f(Incoming(s, md, req)).reply == g(Incoming(s, md, req)).reply
  }

  /** A handler made by reflection depends on nothing else of its method than the replies to the
      request as first decoded: whatever the interceptors, the method's errors are lost, and so is any
      request that an interceptor puts in place of the caller's. */
  lemma ReflectedErrorIsLost<S(!new), Q(!new), P(!new)>(
      f: Incoming<S, Q> -> Returned<S, P>, g: Incoming<S, Q> -> Returned<S, P>,
      s: S, md: Metadata, dec: Result<Q, Error>, ceps: seq<ServerInterceptor<S, Q, P>>)
    requires dec.Ok? ==> ReplyAlike(f, g, dec.value)
    requires forall c | c in ceps :: OnlyCalls(c)
    ensures ReflectedHandler(f)(s, md, dec, ceps) == ReflectedHandler(g)(s, md, dec, ceps)
  {
    if dec.Ok? {
      var req := dec.value;
      var callF, callG := ReflectedCall(f, req), ReflectedCall(g, req);
      forall in': Incoming<S, Q>
        ensures callF(in') == callG(in')
      {
        assert f(Incoming(in'.state, in'.metadata, req)).reply == g(Incoming(in'.state, in'.metadata, req)).reply;
      }
      ChainIsFold(ceps, callF, Incoming(s, md, req));
      ChainIsFold(ceps, callG, Incoming(s, md, req));
      FoldOfSame(ceps, callF, callG);
    }
  }

  /** Where a generated handler's method gets the request an interceptor puts in place of the caller's,
      a method registered by reflection still gets the caller's. */
  lemma ReplacedRequestIsIgnored<S(!new), Q(!new), P(!new)>(
      generated: Incoming<S, Q> -> Reply<S, P>, reflected: Incoming<S, Q> -> Returned<S, P>,
      s: S, md: Metadata, req: Q, other: Q)
    ensures var replace := Passing<Incoming<S, Q>, Reply<S, P>>((in': Incoming<S, Q>) => in'.(req := other));
            && GeneratedHandler(generated)(s, md, Ok(req), [replace]) == generated(Incoming(s, md, other))
            && ReflectedHandler(reflected)(s, md, Ok(req), [replace]) == ReflectedHandler(reflected)(s, md, Ok(req), [])
  {
    var replace := Passing<Incoming<S, Q>, Reply<S, P>>((in': Incoming<S, Q>) => in'.(req := other));
    var call := ReflectedCall(reflected, req);
    assert call(Incoming(s, md, other)) == call(Incoming(s, md, req));
    assert Intercept([replace], call, Incoming(s, md, req)) == call(Incoming(s, md, other));
  }

  // ----- The service -----

  /** The four serializations of a call; client and server use the same. */
  datatype Wire<!Q, !P> = Wire(
    requests: Serializer<Request>,
    responses: Serializer<Response>,
    queries: Serializer<Q>,
    replies: Serializer<P>)

  ghost predicate Faithful<Q(!new), P(!new)>(wire: Wire<Q, P>) {
    && Reversible(wire.requests)
    && Reversible(wire.responses)
    && ReversibleUnlessEmpty(wire.queries)
    && ReversibleUnlessEmpty(wire.replies)
  }

  datatype Config<!S, !Q, !P> = Config(wire: Wire<Q, P>, interceptors: seq<ServerInterceptor<S, Q, P>>)

  type Handlers<!S, !Q, !P> = map<string, Handler<S, Q, P>>

  /** What a handler makes of a request: the new state, and the answer sent back. */
  function Executed<S, Q, P>(
      config: Config<S, Q, P>, handler: Handler<S, Q, P>, s: S, request: Request): (S, Result<bytes, Error>)
  {
    var r := handler(s, request.metadata, config.wire.queries.unmarshal(request.payload), config.interceptors);
    match r.result
    case Err(e) => (r.state, Err(e))
    case Ok(reply) => (r.state, config.wire.replies.marshal(reply))
  }

  /** What `Handle` makes of a request message. */
  function Handled<S, Q, P>(
      config: Config<S, Q, P>, handlers: Handlers<S, Q, P>, s: S, reqBuf: bytes): (S, Result<bytes, Error>)
  {
    match config.wire.requests.unmarshal(reqBuf)
    case Err(e) => (s, Err(e))
    case Ok(request) =>
      match ServicePath.Parse(request.servicePath)
      case Err(_) => (s, Err(Coded(CLIENT_MSG_ERROR, BusyError, "method is invalid")))
      case Ok((_, method')) =>
        if method' !in handlers then (s, Err(Foreign("handlers is nil")))
        else Executed(config, handlers[method'], s, request)
  }

  /** A payload that does not decode runs no method: the state is kept and the answer is the decoding
      error. Any other is handed over decoded, with the request's metadata and the interceptors. */
  lemma ExecutedIff<S(!new), Q(!new), P(!new)>(
      config: Config<S, Q, P>, handler: Handler<S, Q, P>, s: S, request: Request)
    requires DecodesFirst(handler)
    ensures var decoded := config.wire.queries.unmarshal(request.payload);
            && (decoded.Err? ==> Executed(config, handler, s, request) == (s, Err(decoded.error)))
            && (decoded.Ok? ==>
                  var r := handler(s, request.metadata, Ok(decoded.value), config.interceptors);
                  && Executed(config, handler, s, request).0 == r.state
                  && (r.result.Ok? ==>
                        Executed(config, handler, s, request).1 == config.wire.replies.marshal(r.result.value))
                  && (r.result.Err? ==> Executed(config, handler, s, request).1 == Err(r.result.error)))
  {
  }

  /** The bytes decode to a request for the registered method' of some service. */
  ghost predicate Reaches<S, Q, P>(
      config: Config<S, Q, P>, handlers: Handlers<S, Q, P>, reqBuf: bytes, request: Request, method': string)
  {
    && config.wire.requests.unmarshal(reqBuf) == Ok(request)
    && '/' !in method' && method' in handlers
    && exists service :: request.servicePath == ServicePath.Render(service, method')
  }

  /** For any bytes at all: a request that reaches a handler runs it, once, and no other; for any other
      request no handler runs, and the service itself answers in one of three ways. */
  lemma HandledIff<S(!new), Q(!new), P(!new)>(
      config: Config<S, Q, P>, handlers: Handlers<S, Q, P>, s: S, reqBuf: bytes)
    ensures forall request, method' | Reaches(config, handlers, reqBuf, request, method') ::
              Handled(config, handlers, s, reqBuf) == Executed(config, handlers[method'], s, request)
    ensures (forall request, method' :: !Reaches(config, handlers, reqBuf, request, method')) ==>
              var decoded := config.wire.requests.unmarshal(reqBuf);
              Handled(config, handlers, s, reqBuf) == (s,
              if decoded.Err? then Err(decoded.error)
              else if ServicePath.IsServicePath(decoded.value.servicePath) then Err(Foreign("handlers is nil"))
              else Err(Coded(CLIENT_MSG_ERROR, BusyError, "method is invalid")))
  {
    var decoded := config.wire.requests.unmarshal(reqBuf);
    if decoded.Ok? {
      var path := decoded.value.servicePath;
      ServicePath.ParsesIff(path);
      hide Executed;
      forall service, method' | '/' !in method' && path == ServicePath.Render(service, method')
        ensures ServicePath.Parse(path) == Ok((service, method'))
      {
        ServicePath.ParseRenderedIff(service, method');
      }
      if ServicePath.Parse(path).Ok? {
        ServicePath.RenderParsed(path);
        var (service, method') := ServicePath.Parse(path).value;
        assert path == ServicePath.Render(service, method');
        assert method' in handlers ==> Reaches(config, handlers, reqBuf, decoded.value, method');
      }
    }
  }

  class Service<S, Q, P> {
    const config: Config<S, Q, P>
    var handlers: Handlers<S, Q, P>
    var state: S

    constructor (config: Config<S, Q, P>, state: S)
      ensures this.config == config && handlers == map[] && this.state == state
    {
      this.config := config;
      this.state := state;
      handlers := map[];
    }

    /** Registering a method decides that method and no other. */
    method Register(name: string, handler: Handler<S, Q, P>)
      modifies this`handlers
      ensures handlers == old(handlers)[name := handler]
    {
      handlers := handlers[name := handler];
    }

    method Handle(reqBuf: bytes) returns (answer: Result<bytes, Error>)
      modifies this`state
      ensures (state, answer) == Handled(config, handlers, old(state), reqBuf)
    {
      var parsed := config.wire.requests.unmarshal(reqBuf);
      if parsed.Err? {
        return Err(parsed.error);
      }
      var request := parsed.value;
      var path := ServicePath.Parse(request.servicePath);
      if path.Err? {
        return Err(Coded(CLIENT_MSG_ERROR, BusyError, "method is invalid"));
      }
      var method' := path.value.1;
      if method' !in handlers {
        return Err(Foreign("handlers is nil"));
      }
      var dec := config.wire.queries.unmarshal(request.payload);
      var rsp := handlers[method'](state, request.metadata, dec, config.interceptors);
      state := rsp.state;
      if rsp.result.Err? {
        return Err(rsp.result.error);
      }
      answer := config.wire.replies.marshal(rsp.result.value);
    }
  }
}
