/** The client's half of a call (client/client.go, transport/client_transport.go). */
module Client {
  import opened Wrappers
  import opened Codec
  import opened Codes
  import opened Interceptors
  import opened Service
  import opened Sessions
  import opened Streams
  import opened Transport
  import ChannelPool
  import PoolModel
  import ServicePath

  type ConnError = ChannelPool.ConnError

  // ----- One request on a connection -----

  /** The fate of a call: its write fails if the connection takes less than all of the request, and
      the context is checked once that is written. */
  function FateOf(sent: bytes, req: bytes, limit: Option<nat>, done: bool): Fate
    requires Fits(sent, limit)
  {
    if !Fits(sent + req, limit) then WriteFailed(limit.value - |sent|)
    else if done && req != [] then Abandoned
    else Awaited
  }

  /** The middle of `SendTcpReq`: write the request, see whether the context is done, read one frame.
      What the call does to the connection is what its fate says in Sessions. */
  method Exchange(conn: Conn, req: bytes, done: bool) returns (frame: array?<byte>, err: Option<SendError>)
    requires Fits(conn.outgoing, conn.writeLimit)
    modifies conn
    ensures var fate := FateOf(old(conn.outgoing), req, conn.writeLimit, done);
            var (result, rest) := Outcome(old(conn.incoming), conn.ending, fate);
            && conn.outgoing == old(conn.outgoing) + Written(req, fate)
            && conn.incoming == rest
            && (err.None? ==> frame != null && result == Ok(frame[..]))
            && (err.Some? ==> result == Err(err.value))
    // a request that the connection does not take: the write fails, and nothing is read
    ensures conn.writeLimit.Some? && conn.writeLimit.value < |old(conn.outgoing) + req| ==>
              && err == Some(NoFrame(ReadError.Broken(0))) && conn.incoming == old(conn.incoming)
              && conn.outgoing == (old(conn.outgoing) + req)[..conn.writeLimit.value]
    // one that it takes, under a context that is done by then: all is written, and nothing is read
    ensures Fits(old(conn.outgoing) + req, conn.writeLimit) && req != [] && done ==>
              && err == Some(ContextDone) && conn.incoming == old(conn.incoming)
              && conn.outgoing == old(conn.outgoing) + req
    // else: all is written, and one frame is read
    ensures Fits(old(conn.outgoing) + req, conn.writeLimit) && (req == [] || !done) ==>
              && conn.outgoing == old(conn.outgoing) + req
              && match ParseFrame(old(conn.incoming), conn.ending)
                 case Frame(f, rest) => err.None? && frame != null && frame[..] == f && conn.incoming == rest
                 case Failed(e, rest) => err == Some(NoFrame(e)) && conn.incoming == rest
  {
    frame := null;
    var sendNum := 0;
    ghost var out := conn.outgoing;
    while sendNum < |req|
      invariant sendNum == 0 || (sendNum == |req| && !done)
      invariant conn.outgoing == out + req[..sendNum] && Fits(conn.outgoing, conn.writeLimit)
      invariant conn.incoming == old(conn.incoming)
    {
      assert req[0..] == req && out + req[..0] == out;
      var num, e := conn.Write(req[sendNum..]);
      if e.Some? {
        assert req[..num] == Written(req, WriteFailed(num));
        return null, Some(NoFrame(e.value));
      }
      sendNum := sendNum + num;
      assert req[..sendNum] == req;
      if done {
        return null, Some(ContextDone);
      }
    }
    assert req[..sendNum] == req;
    var framer := new Framer();
    var e;
    frame, e := framer.ReadFrame(conn);
    err := if e.Some? then Some(NoFrame(e.value)) else None;
  }

  // ----- The same on a connection of the pool -----

  datatype CallError = NotSelected(reason: Error) | NotConnected(cause: ConnError) | NotAnswered(error: SendError)

  /** The network connection under the one that the pool hands out next, if dialling gives `dialled`. */
  function NextRaw(pool: ChannelPool.ChannelPool, dialled: Conn?): Conn?
    reads pool
  {
    if pool.conns != [] then pool.conns[0].raw else dialled
  }

  /** `SendTcpReq`: choose an address, take a connection from its pool, exchange request and response,
      give the connection back. The connection ends up at the back of the queue, whether or not it is
      in step, unless an error of the connection itself made it unusable. No other connection of the
      pool is touched. */
  method SendTcpReq(
      selected: Result<string, Error>, target: string, pool: ChannelPool.ChannelPool, dialled: Conn?,
      req: bytes, done: bool)
    returns (addr: string, conn: ChannelPool.PoolConn?, frame: array?<byte>, err: Option<CallError>)
    requires pool.Valid() && pool.maxCap > 0
    requires var raw := NextRaw(pool, dialled); raw != null ==> Fits(raw.outgoing, raw.writeLimit)
    modifies pool, if pool.conns != [] then {pool.conns[0]} else {}
    modifies NextRaw(pool, dialled)
    ensures pool.Valid() && pool.open == old(pool.open)
    ensures selected.Ok? ==> addr == if selected.value != "" then selected.value else target
    ensures conn == null <==> selected.Err? || !old(pool.open) || old(NextRaw(pool, dialled)) == null
    ensures conn == null ==>
              && err.Some? && pool.conns == old(pool.conns)
              && (old(NextRaw(pool, dialled)) != null ==> unchanged(old(NextRaw(pool, dialled))))
    ensures conn != null ==>
              var raw := old(NextRaw(pool, dialled));
              && raw != null && conn.raw == raw
              && var fate := FateOf(old(raw.outgoing), req, raw.writeLimit, done);
              var (result, rest) := Outcome(old(raw.incoming), raw.ending, fate);
              && (if old(pool.conns) != [] then conn == old(pool.conns)[0] else fresh(conn))
              && raw.outgoing == old(raw.outgoing) + Written(req, fate) && raw.incoming == rest
              && (result.Ok? ==> err.None? && frame != null && frame[..] == result.value)
              && (result.Err? ==> err == Some(NotAnswered(result.error)))
              && conn.unusable == MarksUnusable(result)
              && conn !in pool.model.held
              && pool.conns == (if old(pool.conns) == [] then [] else old(pool.conns)[1..])
                               + (if conn.unusable then [] else [conn])
    // a request that the connection does not take makes it unusable
    ensures conn != null && conn.raw.writeLimit.Some?
            && conn.raw.writeLimit.value < |old(NextRaw(pool, dialled).outgoing) + req| ==>
              && err == Some(NotAnswered(NoFrame(ReadError.Broken(0)))) && conn.unusable
              && conn.raw.incoming == old(NextRaw(pool, dialled).incoming)
    // a call that is given up returns it usable, with whatever comes back still to be read
    ensures conn != null && Fits(old(NextRaw(pool, dialled).outgoing) + req, conn.raw.writeLimit)
            && req != [] && done ==>
              && err == Some(NotAnswered(ContextDone)) && !conn.unusable
              && conn.raw.incoming == old(NextRaw(pool, dialled).incoming)
    // else a frame is read; a refused header leaves the connection usable, any other failure does not
    ensures conn != null && Fits(old(NextRaw(pool, dialled).outgoing) + req, conn.raw.writeLimit)
            && (req == [] || !done) ==>
              match ParseFrame(old(NextRaw(pool, dialled).incoming), conn.raw.ending)
              case Frame(f, rest) =>
                err.None? && frame != null && frame[..] == f && conn.raw.incoming == rest && !conn.unusable
              case Failed(e, rest) =>
                && err == Some(NotAnswered(NoFrame(e))) && conn.raw.incoming == rest
                && (conn.unusable <==> e != InvalidMagic && e != PayloadTooLarge)
  {
    hide PoolModel.Owned, Outcome;
    addr, conn, frame := "", null, null;
    if selected.Err? {
      return addr, conn, frame, Some(NotSelected(selected.error));
    }
    addr := selected.value;
    if addr == "" {
      addr := target;
    }
    var e;
    conn, e := pool.Lend(dialled);
    if e.Some? {
      return addr, null, frame, Some(NotConnected(e.value));
    }
    var failure;
    frame, failure := Exchange(conn.raw, req, done);
    err := if failure.Some? then Some(NotAnswered(failure.value)) else None;
    pool.GiveBack(conn, failure.Some? && MarksUnusable(Err(failure.value)));
  }

  // ----- Building the request -----

  /** Credentials are laid over the call's metadata in list order, later ones winning. */
  function Merged(md: Metadata, auths: seq<Metadata>): Metadata {
    if auths == [] then md else Merged(md, auths[..|auths| - 1]) + auths[|auths| - 1]
  }

  method AddReqHeader(service: string, method': string, md: Metadata, auths: seq<Metadata>, payload: bytes)
    returns (request: Request)
    ensures request == Request(ServicePath.Render(service, method'), payload, Merged(md, auths))
  {
    var filled := md;
    for i := 0 to |auths|
      invariant filled == Merged(md, auths[..i])
    {
      assert auths[..i + 1][..i] == auths[..i];
      filled := filled + auths[i];
    }
    assert auths[..|auths|] == auths;
    request := Request("/" + service + "/" + method', payload, filled);
  }

  /** A key of the metadata sent has the value of the last credential that has it, or else the
      value it had in the call. */
  lemma {:induction false} LastCredentialWins(md: Metadata, auths: seq<Metadata>, key: string)
    ensures key in Merged(md, auths) <==> key in md || exists i :: 0 <= i < |auths| && key in auths[i]
    ensures forall i | 0 <= i < |auths| && key in auths[i] && (forall j | i < j < |auths| :: key !in auths[j]) ::
              Merged(md, auths)[key] == auths[i][key]
    ensures (forall i | 0 <= i < |auths| :: key !in auths[i]) && key in md ==> Merged(md, auths)[key] == md[key]
    decreases |auths|
  {
    if auths == [] {
    } else {
      LastCredentialWins(md, auths[..|auths| - 1], key);
    }
  }

  // ----- invoke -----

  /** A refused header is reported with code 301; any other failure is the connection's own error. */
  function ReadFailure(e: ReadError): (error: Error)
    ensures error.Coded? <==> e == InvalidMagic || e == PayloadTooLarge
    ensures error.Coded? ==> error.code == 301 && error.kind == FrameworkError
  {
    match e
    case InvalidMagic => Coded(CLIENT_MSG_ERROR, FrameworkError, "invalid magic...")
    case PayloadTooLarge => Coded(CLIENT_MSG_ERROR, FrameworkError, "payload too large...")
    case Eof => Foreign("EOF")
    case UnexpectedEof => Foreign("unexpected EOF")
    case Broken(_) => Foreign("connection")
  }

  /** How the client understands a response frame. */
  function Understood<Q, P>(wire: Wire<Q, P>, frame: bytes): Result<P, Error>
    requires FRAME_HEAD_LEN <= |frame|
  {
    match wire.responses.unmarshal(Decoded(frame))
    case Err(e) => Err(e)
    case Ok(response) =>
      if response.retCode != OK then Err(Coded(response.retCode, BusyError, response.retMsg))
      else wire.replies.unmarshal(response.payload)
  }

  /** A call as the client's options and context determine it, in a state of the world: that of the
      server's handlers and of anything the interceptors keep. */
  datatype Outgoing<+S, +Q> = Outgoing(state: S, metadata: Metadata, req: Q)

  /** The request body `invoke` sends, or the error it fails with before sending. */
  function RequestBody<Q, P>(
      wire: Wire<Q, P>, service: string, method': string, auths: seq<Metadata>, md: Metadata, req: Q)
    : Result<bytes, Error>
  {
    match wire.queries.marshal(req)
    case Err(_) => Err(Coded(CLIENT_MSG_ERROR, FrameworkError, "request marshal failed ..."))
    case Ok(payload) =>
      match wire.requests.marshal(Request(ServicePath.Render(service, method'), payload, Merged(md, auths)))
      case Err(e) => Err(e)
      case Ok(message) => Ok(Encoded(message))
  }

  /** A transport that answers a request body with a frame or an error. */
  type Sender<!S> = (S, bytes) -> (S, Result<bytes, Error>)

  ghost predicate AnswersInFrames<S(!new)>(send: Sender<S>) {
    forall s, b :: send(s, b).1.Ok? ==> FRAME_HEAD_LEN <= |send(s, b).1.value|
  }

  /** `invoke` over such a transport. */
  function Invoked<S(!new), Q, P>(wire: Wire<Q, P>, service: string, method': string, auths: seq<Metadata>,
                                  send: Sender<S>, call: Outgoing<S, Q>): Reply<S, P>
    requires AnswersInFrames(send)
  {
    match RequestBody(wire, service, method', auths, call.metadata, call.req)
    case Err(e) => Reply(call.state, Err(e))
    case Ok(body) =>
      var (state, answer) := send(call.state, body);
      match answer
      case Err(e) => Reply(state, Err(e))
      case Ok(frame) => Reply(state, Understood(wire, frame))
  }

  /** For any server at the other end: the caller gets a reply exactly if the request marshals, a frame
      comes back, and it holds a response with code 0 whose payload is that reply. A request that does
      not marshal is never sent. */
  lemma InvokedIff<S(!new), Q, P(!new)>(
      wire: Wire<Q, P>, service: string, method': string, auths: seq<Metadata>, send: Sender<S>,
      call: Outgoing<S, Q>, reply: P)
    requires AnswersInFrames(send)
    ensures var result := Invoked(wire, service, method', auths, send, call);
            var body := RequestBody(wire, service, method', auths, call.metadata, call.req);
            && (result.result == Ok(reply) <==>
                  && body.Ok? && send(call.state, body.value).1.Ok?
                  && var frame := send(call.state, body.value).1.value;
                     exists payload: bytes, message: string ::
                       && wire.responses.unmarshal(frame[15..]) == Ok(Response(0, message, payload))
                       && wire.replies.unmarshal(payload) == Ok(reply))
            && (body.Err? ==> result == Reply(call.state, Err(body.error)))
            && (body.Ok? ==> result.state == send(call.state, body.value).0)
            && (wire.queries.marshal(call.req).Err? ==>
                  body == Err(Coded(301, FrameworkError, "request marshal failed ...")))
  {
    var body := RequestBody(wire, service, method', auths, call.metadata, call.req);
    if body.Ok? && send(call.state, body.value).1.Ok? {
      var frame := send(call.state, body.value).1.value;
      assert Decoded(frame) == frame[15..];
      var decoded := wire.responses.unmarshal(frame[15..]);
      if decoded.Ok? {
        assert decoded.value == Response(decoded.value.retCode, decoded.value.retMsg, decoded.value.payload);
      }
    }
  }

  /** The innermost step of the client's interceptor chain. */
  function Invoker<S(!new), Q, P>(wire: Wire<Q, P>, service: string, method': string, auths: seq<Metadata>,
                                  send: Sender<S>): Outgoing<S, Q> -> Reply<S, P>
    requires AnswersInFrames(send)
  {
    (call: Outgoing<S, Q>) => Invoked(wire, service, method', auths, send, call)
  }

  type ClientInterceptor<!S, !Q, !P> = Interceptor<Outgoing<S, Q>, Reply<S, P>>

  // ----- The client -----

  /** The part of the client's options that a call depends on. */
  datatype Options<!S, !Q, !P> = Options(
    wire: Wire<Q, P>, auths: seq<Metadata>, interceptors: seq<ClientInterceptor<S, Q, P>>)

  type Setting<!S, !Q, !P> = Options<S, Q, P> -> Options<S, Q, P>

  function Applied<S, Q, P>(options: Options<S, Q, P>, settings: seq<Setting<S, Q, P>>): Options<S, Q, P> {
    if settings == [] then options
    else settings[|settings| - 1](Applied(options, settings[..|settings| - 1]))
  }

  /** Settings passed to one call stay for the next: passing them in separate calls leaves the same
      options as passing all of them to the last. */
  lemma {:induction false} SettingsPersist<S, Q, P>(
      options: Options<S, Q, P>, a: seq<Setting<S, Q, P>>, b: seq<Setting<S, Q, P>>)
    ensures Applied(Applied(options, a), b) == Applied(options, a + b)
    decreases |b|
  {
    if b == [] {
      assert a + b == a;
    } else {
      SettingsPersist(options, a, b[..|b| - 1]);
      assert (a + b)[..|a + b| - 1] == a + b[..|b| - 1];
    }
  }

  /** Settings that each decide one option. */
  datatype Change<!S, !Q, !P> =
    | SetWire(wire: Wire<Q, P>)
    | SetAuths(auths: seq<Metadata>)
    | SetInterceptors(interceptors: seq<ClientInterceptor<S, Q, P>>)

  function Set<S, Q, P>(change: Change<S, Q, P>): Setting<S, Q, P> {
    (o: Options<S, Q, P>) =>
      match change
      case SetWire(wire) => o.(wire := wire)
      case SetAuths(auths) => o.(auths := auths)
      case SetInterceptors(interceptors) => o.(interceptors := interceptors)
  }

  function SetAll<S, Q, P>(changes: seq<Change<S, Q, P>>): (settings: seq<Setting<S, Q, P>>)
    ensures |settings| == |changes|
  {
    seq(|changes|, i requires 0 <= i < |changes| => Set(changes[i]))
  }

  lemma OneMoreSetting<S, Q, P>(options: Options<S, Q, P>, changes: seq<Change<S, Q, P>>)
    ensures changes == [] ==> Applied(options, SetAll(changes)) == options
    ensures changes != [] ==>
              var n := |changes| - 1;
              Applied(options, SetAll(changes)) == Set(changes[n])(Applied(options, SetAll(changes[..n])))
  {
    if changes != [] {
      assert SetAll(changes)[..|changes| - 1] == SetAll(changes[..|changes| - 1]);
    }
  }

  predicate SameOption<S, Q, P>(a: Change<S, Q, P>, b: Change<S, Q, P>) {
    a.SetWire? == b.SetWire? && a.SetAuths? == b.SetAuths? && a.SetInterceptors? == b.SetInterceptors?
  }

  /** The last setting that decides an option wins. */
  lemma {:induction false} LastSettingWins<S, Q, P>(
      options: Options<S, Q, P>, changes: seq<Change<S, Q, P>>, i: nat)
    requires i < |changes| && forall j | i < j < |changes| :: !SameOption(changes[j], changes[i])
    ensures match changes[i]
            case SetWire(wire) => Applied(options, SetAll(changes)).wire == wire
            case SetAuths(auths) => Applied(options, SetAll(changes)).auths == auths
            case SetInterceptors(ceps) => Applied(options, SetAll(changes)).interceptors == ceps
    decreases |changes|
  {
    hide Applied, SetAll;
    OneMoreSetting(options, changes);
    if i == |changes| - 1 {
    } else {
      LastSettingWins(options, changes[..|changes| - 1], i);
      assert !SameOption(changes[|changes| - 1], changes[i]);
    }
  }

  /** An option that no setting decides stays. */
  lemma {:induction false} UndecidedOptionStays<S, Q, P>(
      options: Options<S, Q, P>, changes: seq<Change<S, Q, P>>, change: Change<S, Q, P>)
    requires forall j | 0 <= j < |changes| :: !SameOption(changes[j], change)
    ensures match change
            case SetWire(_) => Applied(options, SetAll(changes)).wire == options.wire
            case SetAuths(_) => Applied(options, SetAll(changes)).auths == options.auths
            case SetInterceptors(_) => Applied(options, SetAll(changes)).interceptors == options.interceptors
    decreases |changes|
  {
    hide Applied, SetAll;
    OneMoreSetting(options, changes);
    if changes == [] {
    } else {
      UndecidedOptionStays(options, changes[..|changes| - 1], change);
      assert !SameOption(changes[|changes| - 1], change);
    }
  }

  /** So a credential set for a call is sent with it: the metadata of the request has what the last
      credential of the last such setting says of a key. */
  lemma SetCredentialIsSent<S, Q, P>(
      options: Options<S, Q, P>, changes: seq<Change<S, Q, P>>, i: nat, k: nat, key: string, md: Metadata)
    requires i < |changes| && changes[i].SetAuths?
    requires forall j | i < j < |changes| :: !changes[j].SetAuths?
    requires k < |changes[i].auths| && key in changes[i].auths[k]
    requires forall l | k < l < |changes[i].auths| :: key !in changes[i].auths[l]
    ensures var sent := Merged(md, Applied(options, SetAll(changes)).auths);
            key in sent && sent[key] == changes[i].auths[k][key]
  {
    LastSettingWins(options, changes, i);
    LastCredentialWins(md, changes[i].auths, key);
  }

  class Client<S(!new), Q, P> {
    var options: Options<S, Q, P>
    var serviceName: string
    var methodName: string

    constructor (options: Options<S, Q, P>)
      ensures this.options == options && serviceName == "" && methodName == ""
    {
      this.options := options;
      serviceName := "";
      methodName := "";
    }

    /** `Invoke`: apply the call's settings to the client's own options, one after the other (`steps` are
        the options in between), split the path, remember both parts, and run `invoke` inside the
        interceptors. A bad path fails after the settings took effect, but before a part is remembered
        or anything sent. */
    method Invoke(settings: seq<Setting<S, Q, P>>, path: string, call: Outgoing<S, Q>, send: Sender<S>)
      returns (result: Reply<S, P>, ghost steps: seq<Options<S, Q, P>>)
      requires AnswersInFrames(send)
      modifies this
      ensures |steps| == |settings| + 1 && steps[0] == old(options) && steps[|settings|] == options
      ensures forall i | 0 <= i < |settings| :: steps[i + 1] == settings[i](steps[i])
      ensures options == Applied(old(options), settings)
      ensures ServicePath.Parse(path).Err? ==>
                && result == Reply(call.state, Err(Foreign("invalid path")))
                && serviceName == old(serviceName) && methodName == old(methodName)
      ensures ServicePath.Parse(path).Ok? ==>
                && ServicePath.Render(serviceName, methodName) == path && '/' !in methodName
                && result == Intercept(options.interceptors,
                                       Invoker(options.wire, serviceName, methodName, options.auths, send), call)
    {
      steps := [options];
      for i := 0 to |settings|
        invariant |steps| == i + 1 && steps[0] == old(options) && steps[i] == options
        invariant forall j | 0 <= j < i :: steps[j + 1] == settings[j](steps[j])
        invariant options == Applied(old(options), settings[..i])
        invariant serviceName == old(serviceName) && methodName == old(methodName)
      {
        assert settings[..i + 1][..i] == settings[..i];
        options := settings[i](options);
        steps := steps + [options];
      }
      assert settings[..|settings|] == settings;
      var parsed := ServicePath.Parse(path);
      if parsed.Err? {
        return Reply(call.state, Err(Foreign("invalid path"))), steps;
      }
      serviceName, methodName := parsed.value.0, parsed.value.1;
      ServicePath.RenderParsed(path);
      result := Intercept(options.interceptors,
                          Invoker(options.wire, serviceName, methodName, options.auths, send), call);
    }
  }
}
