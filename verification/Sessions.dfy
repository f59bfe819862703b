/** Many calls, one after the other, on one pooled connection (transport/client_transport.go,
    transport/server_transport.go): which bytes each call takes, what the server's handlers were run
    for, and in what state each call gives the connection back. */
module Sessions {
  import opened Wrappers
  import opened Codec
  import opened Streams

  // ----- One call at the client's end -----

  /** `NoFrame` carries the error of a failed write or of `ReadFrame`. */
  datatype SendError = NoFrame(error: ReadError) | ContextDone

  /** How far a call gets: its context ends by the time its request is written, the write fails after
      some bytes, or it goes on to read a frame. */
  datatype Fate = Abandoned | WriteFailed(written: nat) | Awaited

  function Written(body: bytes, fate: Fate): (w: bytes)
    ensures w <= body
  {
    if fate.WriteFailed? && fate.written < |body| then body[..fate.written] else body
  }

  /** What a call makes of the bytes still to come on its connection: its result, and the rest. */
  function Outcome(incoming: bytes, ending: Ending, fate: Fate): (r: (Result<bytes, SendError>, bytes))
    ensures r.0.Ok? ==> FRAME_HEAD_LEN <= |r.0.value|
  {
    match fate
    case Abandoned => (Err(ContextDone), incoming)
    case WriteFailed(_) => (Err(NoFrame(ReadError.Broken(0))), incoming)
    case Awaited =>
      match ParseFrame(incoming, ending)
      case Frame(f, rest) => (Ok(f), rest)
      case Failed(e, rest) => (Err(NoFrame(e)), rest)
  }

  /** An error of the connection itself marks it unusable; a refused header and an ended context do
      not. */
  predicate MarksUnusable(result: Result<bytes, SendError>) {
    result.Err? && result.error.NoFrame? && !result.error.error.InvalidMagic? && !result.error.error.PayloadTooLarge?
  }

  // ----- The server's end -----

  /** What a server does for one frame: from the state its handlers work on to the new state and the
      bytes of the response, none if it cannot be marshalled. */
  type Server<!S> = (S, bytes) -> (S, bytes)

  /** A server serving frames one by one. */
  function Serve<S>(server: Server<S>, s: S, frames: seq<bytes>): (r: (S, seq<bytes>))
    ensures |r.1| == |frames|
    decreases |frames|
  {
    if frames == [] then (s, [])
    else
      var (next, answer) := server(s, frames[0]);
      var (last, answers) := Serve(server, next, frames[1..]);
      (last, [answer] + answers)
  }

  lemma ServeFirst<S>(server: Server<S>, s: S, f: bytes, frames: seq<bytes>)
    ensures var (next, answer) := server(s, f);
            var (last, answers) := Serve(server, next, frames);
            Serve(server, s, [f] + frames) == (last, [answer] + answers)
  {
    assert ([f] + frames)[1..] == frames;
  }

  lemma {:induction false} ServeAppend<S>(server: Server<S>, s: S, a: seq<bytes>, b: seq<bytes>)
    ensures var (middle, xs) := Serve(server, s, a);
            var (last, ys) := Serve(server, middle, b);
            Serve(server, s, a + b) == (last, xs + ys)
    decreases |a|
  {
    if a == [] {
      assert a + b == b;
      assert [] + Serve(server, s, b).1 == Serve(server, s, b).1;
    } else {
      var (next, answer) := server(s, a[0]);
      ServeAppend(server, next, a[1..], b);
      ServeFirst(server, s, a[0], a[1..]);
      ServeFirst(server, s, a[0], a[1..] + b);
      hide Serve;
      assert [a[0]] + a[1..] == a && [a[0]] + (a[1..] + b) == a + b;
      var xs, ys := Serve(server, next, a[1..]).1, Serve(server, Serve(server, s, a).0, b).1;
      assert [answer] + (xs + ys) == [answer] + xs + ys;
    }
  }

  lemma ServeOne<S>(server: Server<S>, s: S, f: bytes)
    ensures Serve(server, s, []) == (s, [])
    ensures Serve(server, s, [f]) == (server(s, f).0, [server(s, f).1])
  {
    ServeFirst(server, s, f, []);
    assert [f] + [] == [f];
    assert [server(s, f).1] + [] == [server(s, f).1];
  }

  /** The k-th frame is served in the state that the frames before it leave. */
  lemma ServeAt<S>(server: Server<S>, s: S, frames: seq<bytes>, k: nat)
    requires k < |frames|
    ensures var (before, answers) := Serve(server, s, frames[..k]);
            && Serve(server, s, frames).1[..k] == answers
            && Serve(server, s, frames).1[k] == server(before, frames[k]).1
            && Serve(server, s, frames[..k + 1]).0 == server(before, frames[k]).0
  {
    hide *;
    var a, f, b := frames[..k], frames[k], frames[k + 1..];
    SplitAt(frames, k);
    ServeMiddle(server, s, a, f, b);
  }

  lemma SplitAt<T>(s: seq<T>, k: nat)
    requires k < |s|
    ensures s[..k] + [s[k]] + s[k + 1..] == s && s[..k] + [s[k]] == s[..k + 1]
  {
  }

  lemma ServeMiddle<S>(server: Server<S>, s: S, a: seq<bytes>, f: bytes, b: seq<bytes>)
    ensures var (before, answers) := Serve(server, s, a);
            && Serve(server, s, a + [f] + b).1[..|a|] == answers
            && Serve(server, s, a + [f] + b).1[|a|] == server(before, f).1
            && Serve(server, s, a + [f]).0 == server(before, f).0
  {
    hide *;
    ServeAppend(server, s, a + [f], b);
    ServeAppend(server, s, a, [f]);
    ServeOne(server, Serve(server, s, a).0, f);
  }

  // ----- A connection from call to call -----

  /** The state of the server's handlers, the bytes it has not made a frame of yet, the bytes of its
      responses not read yet, and whether the pool may hand the connection out. */
  datatype Link<+S> = Link(state: S, tail: bytes, unread: bytes, usable: bool)

  function NewLink<S>(s: S): Link<S> {
    Link(s, [], [], true)
  }

  datatype Turn = Turn(body: bytes, fate: Fate)

  /** One call on the connection: the server goes on serving what it got, and the client goes on
      reading what comes back. */
  function Call<S>(server: Server<S>, link: Link<S>, turn: Turn, ending: Ending)
    : (r: (Link<S>, Result<bytes, SendError>))
  {
    var stream := link.tail + Written(turn.body, turn.fate);
    var (state, answers) := Serve(server, link.state, Frames(stream, Eof));
    var (result, rest) := Outcome(link.unread + Concat(answers), ending, turn.fate);
    (Link(state, Leftover(stream, Eof), rest, link.usable && !MarksUnusable(result)), result)
  }

  /** Given back in step: but for the state of the handlers, as good as new. */
  ghost predicate InStep<S>(link: Link<S>) {
    link == NewLink(link.state)
  }

  lemma EmptyStream(ending: Ending)
    ensures ParseFrame([], ending) == Failed(ending, [])
    ensures Frames([], ending) == [] && Leftover([], ending) == []
  {
  }

  lemma ConcatOne(s: bytes)
    ensures Concat([s]) == s
  {
    assert Concat([s]) == s + Concat([]);
  }

  lemma WellFormedPrefixIsWhole(m: bytes, f: bytes)
    requires |m| < 0x1_0000_0000 && f <= Encoded(m) && WellFormed(f)
    ensures f == Encoded(m) && |m| <= MAX_PAYLOAD_LENGTH
  {
    EncodedLayout(m);
    hide Encoded;
    assert f == Encoded(m)[..|f|];
    HeaderOfPrefix(Encoded(m), |f|);
  }

  /** A request cut short holds no frame, nor does one over 4 MiB. */
  lemma FramesOfPrefix(m: bytes, w: bytes)
    requires |m| < 0x1_0000_0000 && w <= Encoded(m)
    ensures var whole := w == Encoded(m) && |m| <= MAX_PAYLOAD_LENGTH;
            && Frames(w, Eof) == (if whole then [w] else [])
            && Leftover(w, Eof) == (if whole then [] else w)
  {
    hide Frames, Leftover, ParseFrame, WellFormed, Encoded;
    if w == Encoded(m) && |m| <= MAX_PAYLOAD_LENGTH {
      EncodedRoundTripIff(m, [], Eof);
      OneFrame(w);
    } else {
      forall f | f <= w && WellFormed(f)
        ensures false
      {
        WellFormedPrefixIsWhole(m, f);
        assert false;
      }
      ParsesIffWellFormedPrefix(w, Eof);
      FirstFrame(w, Eof);
    }
  }

  lemma OneFrame(f: bytes)
    requires WellFormed(f)
    ensures Frames(f, Eof) == [f] && Leftover(f, Eof) == []
  {
    WellFormedPrefixIsParsed(f, [], Eof);
    assert f + [] == f && [f] + [] == [f];
    FirstFrame(f, Eof);
    EmptyStream(Eof);
  }

  /** A whole request on a connection whose server is not in the middle of one. */
  lemma CallWithFrame<S>(server: Server<S>, link: Link<S>, turn: Turn, ending: Ending)
    requires link.tail == [] && WellFormed(turn.body) && Written(turn.body, turn.fate) == turn.body
    ensures var (state, answer) := server(link.state, turn.body);
            var (result, rest) := Outcome(link.unread + answer, ending, turn.fate);
            Call(server, link, turn, ending)
            == (Link(state, [], rest, link.usable && !MarksUnusable(result)), result)
  {
    hide WellFormed, Frames, Leftover, Outcome, MarksUnusable, Serve;
    assert [] + turn.body == turn.body;
    OneFrame(turn.body);
    ServeOne(server, link.state, turn.body);
    ConcatOne(server(link.state, turn.body).1);
  }

  /** A request the server makes no frame of. */
  lemma CallWithoutFrame<S>(server: Server<S>, link: Link<S>, turn: Turn, ending: Ending)
    requires var stream := link.tail + Written(turn.body, turn.fate);
             Frames(stream, Eof) == [] && Leftover(stream, Eof) == stream
    ensures var (result, rest) := Outcome(link.unread, ending, turn.fate);
            Call(server, link, turn, ending)
            == (Link(link.state, link.tail + Written(turn.body, turn.fate), rest,
                     link.usable && !MarksUnusable(result)), result)
  {
    hide Frames, Leftover, Outcome, MarksUnusable;
    assert link.unread + [] == link.unread;
  }

  lemma OutcomeOfOne(m: bytes, ending: Ending)
    requires |m| < 0x1_0000_0000
    ensures Outcome([], ending, Awaited) == (Err(NoFrame(ending)), [])
    ensures |m| <= MAX_PAYLOAD_LENGTH ==> Outcome(Encoded(m), ending, Awaited) == (Ok(Encoded(m)), [])
    ensures |m| > MAX_PAYLOAD_LENGTH ==> Outcome(Encoded(m), ending, Awaited) == (Err(NoFrame(PayloadTooLarge)), m)
  {
    EncodedRoundTripIff(m, [], ending);
    EncodedLayout(m);
    EmptyStream(ending);
    hide ParseFrame, Encoded;
    assert Encoded(m) + [] == Encoded(m);
  }

  /** What a call makes of a connection in step. `out` is what the server writes. */
  lemma CallInStep<S>(server: Server<S>, s: S, m: bytes, out: bytes, r: bytes, fate: Fate, ending: Ending)
    requires |m| < 0x1_0000_0000
    requires var w := Written(Encoded(m), fate);
             out == if w == Encoded(m) && |m| <= MAX_PAYLOAD_LENGTH then server(s, w).1 else []
    requires out == [] || (|r| < 0x1_0000_0000 && out == Encoded(r))
    ensures var w := Written(Encoded(m), fate);
            var served := w == Encoded(m) && |m| <= MAX_PAYLOAD_LENGTH;
            var state, tail := if served then server(s, w).0 else s, if served then [] else w;
            Call(server, NewLink(s), Turn(Encoded(m), fate), ending) ==
            match fate
            case Abandoned => (Link(state, tail, out, true), Err(ContextDone))
            case WriteFailed(_) => (Link(state, tail, out, false), Err(NoFrame(ReadError.Broken(0))))
            case Awaited =>
              if out == [] then (Link(state, tail, [], false), Err(NoFrame(ending)))
              else if |r| <= MAX_PAYLOAD_LENGTH then (Link(state, tail, [], true), Ok(out))
              else (Link(state, tail, r, true), Err(NoFrame(PayloadTooLarge)))
  {
    hide Encoded, Call, ParseFrame, Frames, Leftover, WellFormed;
    var body, w := Encoded(m), Written(Encoded(m), fate);
    OutcomeOfOne(if out == [] then [] else r, ending);
    if w == body && |m| <= MAX_PAYLOAD_LENGTH {
      EncodedRoundTripIff(m, [], ending);
      CallWithFrame(server, NewLink(s), Turn(body, fate), ending);
      assert [] + out == out;
    } else {
      FramesOfPrefix(m, w);
      assert [] + w == w;
      CallWithoutFrame(server, NewLink(s), Turn(body, fate), ending);
    }
  }

  /** Exactly when a call gives a connection back in step that was in step: it returned a frame, or it
      was abandoned with nothing coming back. A frame is returned exactly when the call waits and
      request and response exist and have at most 4 MiB each. And exactly then the request's handler
      runs, once, when all of the request was written and has at most 4 MiB, whether or not anybody
      waits. `r` is the message of the server's response, if there is one. */
  lemma GivenBackInStepIff<S>(server: Server<S>, s: S, m: bytes, r: bytes, fate: Fate, ending: Ending)
    requires |m| < 0x1_0000_0000
    requires server(s, Encoded(m)).1 == [] || (|r| < 0x1_0000_0000 && server(s, Encoded(m)).1 == Encoded(r))
    ensures var (link', result) := Call(server, NewLink(s), Turn(Encoded(m), fate), ending);
            var (state, response) := server(s, Encoded(m));
            var answered := |m| <= MAX_PAYLOAD_LENGTH && response != [];
            && (result.Ok? <==> fate == Awaited && answered && |r| <= MAX_PAYLOAD_LENGTH)
            && (result.Ok? ==> result.value == response)
            && (InStep(link') <==>
                  result.Ok? || (fate == Abandoned && |m| <= MAX_PAYLOAD_LENGTH && response == []))
            && (link'.usable <==>
                  result.Ok? || fate == Abandoned || (fate == Awaited && answered && |r| > MAX_PAYLOAD_LENGTH))
            && link'.state == (if |m| <= MAX_PAYLOAD_LENGTH && Written(Encoded(m), fate) == Encoded(m)
                               then state else s)
  {
    hide Encoded, Call;
    var w := Written(Encoded(m), fate);
    var out := if w == Encoded(m) && |m| <= MAX_PAYLOAD_LENGTH then server(s, w).1 else [];
    CallInStep(server, s, m, out, r, fate, ending);
  }

  // ----- Runs of calls from a new connection -----

  function LinkAfter<S>(server: Server<S>, s: S, turns: seq<Turn>, ending: Ending): Link<S> {
    if turns == [] then NewLink(s)
    else Call(server, LinkAfter(server, s, turns[..|turns| - 1], ending), turns[|turns| - 1], ending).0
  }

  /** The result of turn t. */
  function ResultAt<S>(
      server: Server<S>, s: S, turns: seq<Turn>, t: nat, ending: Ending): (r: Result<bytes, SendError>)
    requires t < |turns|
    ensures r.Ok? ==> FRAME_HEAD_LEN <= |r.value|
  {
    Call(server, LinkAfter(server, s, turns[..t], ending), turns[t], ending).1
  }

  lemma OneMoreTurn<S>(server: Server<S>, s: S, turns: seq<Turn>, t: nat, ending: Ending)
    requires t < |turns|
    ensures Call(server, LinkAfter(server, s, turns[..t], ending), turns[t], ending)
            == (LinkAfter(server, s, turns[..t + 1], ending), ResultAt(server, s, turns, t, ending))
  {
    hide Call;
    assert turns[..t + 1][..t] == turns[..t];
  }

  /** All the bytes that were written. */
  function Stream(turns: seq<Turn>): bytes {
    if turns == [] then []
    else Stream(turns[..|turns| - 1]) + Written(turns[|turns| - 1].body, turns[|turns| - 1].fate)
  }

  lemma OneMoreWritten(turns: seq<Turn>, t: nat)
    requires t < |turns|
    ensures Stream(turns[..t + 1]) == Stream(turns[..t]) + Written(turns[t].body, turns[t].fate)
  {
    assert turns[..t + 1][..t] == turns[..t];
  }

  /** The server's loop over a whole stream: the final state and all that is written. */
  function Loop<S>(server: Server<S>, s: S, stream: bytes): (S, bytes) {
    var (state, answers) := Serve(server, s, Frames(stream, Eof));
    (state, Concat(answers))
  }

  lemma LoopContinues<S>(server: Server<S>, s: S, a: bytes, b: bytes)
    ensures var (middle, out) := Loop(server, s, a);
            var (last, more) := Loop(server, middle, Leftover(a, Eof) + b);
            Loop(server, s, a + b) == (last, out + more)
    ensures Leftover(a + b, Eof) == Leftover(Leftover(a, Eof) + b, Eof)
  {
    ReadingContinues(a, b, Eof);
    hide Frames, Leftover, Concat, Serve;
    var fs, gs := Frames(a, Eof), Frames(Leftover(a, Eof) + b, Eof);
    ServeAppend(server, s, fs, gs);
    ConcatAppend(Serve(server, s, fs).1, Serve(server, Serve(server, s, fs).0, gs).1);
  }

  predicate IsSuffix(rest: bytes, s: bytes) {
    |rest| <= |s| && rest == s[|s| - |rest|..]
  }

  lemma CallLeaves<S>(server: Server<S>, link: Link<S>, turn: Turn, ending: Ending)
    ensures var stream := link.tail + Written(turn.body, turn.fate);
            var (state, out) := Loop(server, link.state, stream);
            var link' := Call(server, link, turn, ending).0;
            && link'.state == state && link'.tail == Leftover(stream, Eof)
            && IsSuffix(link'.unread, link.unread + out)
  {
    hide Frames, Leftover, Serve, Concat;
  }

  lemma SuffixOfSuffix(a: bytes, unread: bytes, b: bytes, rest: bytes)
    requires IsSuffix(unread, a) && IsSuffix(rest, unread + b)
    ensures IsSuffix(rest, a + b)
  {
    assert unread + b == (a + b)[|a| - |unread|..];
  }

  lemma NothingStreamed<S>(server: Server<S>, s: S, turns: seq<Turn>, ending: Ending)
    ensures LinkAfter(server, s, turns[..0], ending) == NewLink(s) && Stream(turns[..0]) == []
    ensures Loop(server, s, []) == (s, []) && Leftover([], Eof) == [] && IsSuffix([], [])
    ensures NewLink(s).state == s && NewLink(s).tail == [] && NewLink(s).unread == []
  {
    EmptyStream(Eof);
  }

  /** Whatever the calls do, the server ends as its loop does that is given all they wrote at once,
      and what is left to be read is the end of what that loop writes. */
  lemma {:induction false} SessionIsOneStream<S>(
      server: Server<S>, s: S, turns: seq<Turn>, t: nat, ending: Ending)
    requires t <= |turns|
    ensures var link, stream := LinkAfter(server, s, turns[..t], ending), Stream(turns[..t]);
            var (state, out) := Loop(server, s, stream);
            && link.state == state && link.tail == Leftover(stream, Eof)
            && IsSuffix(link.unread, out)
  {
    hide *;
    if t == 0 {
      NothingStreamed(server, s, turns, ending);
    } else {
      SessionIsOneStream(server, s, turns, t - 1, ending);
      var link, turn, before := LinkAfter(server, s, turns[..t - 1], ending), turns[t - 1], Stream(turns[..t - 1]);
      var w := Written(turn.body, turn.fate);
      OneMoreTurn(server, s, turns, t - 1, ending);
      OneMoreWritten(turns, t - 1);
      LoopContinues(server, s, before, w);
      CallLeaves(server, link, turn, ending);
      SuffixOfSuffix(Loop(server, s, before).1, link.unread, Loop(server, link.state, link.tail + w).1,
                     Call(server, link, turn, ending).0.unread);
    }
  }

  function BodiesOf(turns: seq<Turn>): (bodies: seq<bytes>)
    ensures |bodies| == |turns|
  {
    seq(|turns|, t requires 0 <= t < |turns| => turns[t].body)
  }

  /** The state that turn t finds if the handlers have run once for each earlier request, in order. */
  function StateBefore<S>(server: Server<S>, s: S, turns: seq<Turn>, t: nat): S
    requires t <= |turns|
  {
    Serve(server, s, BodiesOf(turns)[..t]).0
  }

  /** And the response to its own request in that state. */
  function OwnResponse<S>(server: Server<S>, s: S, turns: seq<Turn>, t: nat): bytes
    requires t < |turns|
  {
    server(StateBefore(server, s, turns, t), turns[t].body).1
  }

  lemma NextState<S>(server: Server<S>, s: S, turns: seq<Turn>, t: nat)
    requires t < |turns|
    ensures StateBefore(server, s, turns, 0) == s
    ensures StateBefore(server, s, turns, t + 1) == server(StateBefore(server, s, turns, t), turns[t].body).0
  {
    ServeAt(server, s, BodiesOf(turns), t);
  }

  /** Every request that is written whole runs its handlers exactly once, in the order sent, whether
      or not anybody waits for the responses. */
  lemma {:induction false} HandlersRunInOrder<S>(
      server: Server<S>, s: S, turns: seq<Turn>, t: nat, ending: Ending)
    requires t <= |turns|
    requires forall u | 0 <= u < t :: WellFormed(turns[u].body) && !turns[u].fate.WriteFailed?
    ensures LinkAfter(server, s, turns[..t], ending).state == StateBefore(server, s, turns, t)
    ensures LinkAfter(server, s, turns[..t], ending).tail == []
  {
    hide Call, Serve, WellFormed, BodiesOf;
    if t == 0 {
      assert BodiesOf(turns)[..0] == [];
      ServeOne(server, s, []);
    } else {
      hide StateBefore;
      HandlersRunInOrder(server, s, turns, t - 1, ending);
      OneMoreTurn(server, s, turns, t - 1, ending);
      CallWithFrame(server, LinkAfter(server, s, turns[..t - 1], ending), turns[t - 1], ending);
      NextState(server, s, turns, t - 1);
    }
  }

  /** Request and response have fewer than 2^32 bytes, so their headers announce their true length. */
  ghost predicate Announceable<S>(server: Server<S>, s: S, body: bytes) {
    && (exists m :: |m| < 0x1_0000_0000 && body == Encoded(m))
    && (server(s, body).1 == [] || exists r :: |r| < 0x1_0000_0000 && server(s, body).1 == Encoded(r))
  }

  lemma FrameMeansInStep<S>(server: Server<S>, s: S, turn: Turn, ending: Ending)
    requires Announceable(server, s, turn.body) && Call(server, NewLink(s), turn, ending).1.Ok?
    ensures Call(server, NewLink(s), turn, ending)
            == (NewLink(server(s, turn.body).0), Ok(server(s, turn.body).1))
  {
    hide Call, Encoded;
    var m :| |m| < 0x1_0000_0000 && turn.body == Encoded(m);
    var response := server(s, turn.body).1;
    if response == [] {
      GivenBackInStepIff(server, s, m, [], turn.fate, ending);
    } else {
      var r :| |r| < 0x1_0000_0000 && response == Encoded(r);
      GivenBackInStepIff(server, s, m, r, turn.fate, ending);
    }
  }

  /** As long as every earlier call on a connection returned a frame, a call gets what it would get on
      a connection of its own, in the state that one run of each earlier request leaves. */
  lemma {:induction false} CleanSessionIsAsNew<S>(
      server: Server<S>, s: S, turns: seq<Turn>, t: nat, ending: Ending)
    requires t <= |turns|
    requires forall u | 0 <= u < t ::
               && Announceable(server, StateBefore(server, s, turns, u), turns[u].body)
               && ResultAt(server, s, turns, u, ending).Ok?
    ensures LinkAfter(server, s, turns[..t], ending) == NewLink(StateBefore(server, s, turns, t))
    ensures t < |turns| ==>
              ResultAt(server, s, turns, t, ending)
              == Call(server, NewLink(StateBefore(server, s, turns, t)), turns[t], ending).1
  {
    hide Call, Serve, Announceable, BodiesOf;
    if t == 0 {
      assert BodiesOf(turns)[..0] == [];
      ServeOne(server, s, []);
    } else {
      hide StateBefore;
      CleanSessionIsAsNew(server, s, turns, t - 1, ending);
      OneMoreTurn(server, s, turns, t - 1, ending);
      FrameMeansInStep(server, StateBefore(server, s, turns, t - 1), turns[t - 1], ending);
      NextState(server, s, turns, t - 1);
    }
  }

  // ----- Calls given up after their request was written -----

  /** No write fails, and all requests and responses are well-formed frames. */
  ghost predicate Orderly<S>(server: Server<S>, s: S, turns: seq<Turn>) {
    forall t | 0 <= t < |turns| ::
      && !turns[t].fate.WriteFailed?
      && WellFormed(turns[t].body)
      && WellFormed(OwnResponse(server, s, turns, t))
  }

  /** How many of the first t calls waited for a response. */
  function Waiters(turns: seq<Turn>, t: nat): (n: nat)
    requires t <= |turns|
    ensures n <= t
  {
    if t == 0 then 0 else Waiters(turns, t - 1) + if turns[t - 1].fate == Awaited then 1 else 0
  }

  lemma {:induction false} AllWaitedIff(turns: seq<Turn>, t: nat)
    requires t <= |turns|
    ensures Waiters(turns, t) == t <==> forall u | 0 <= u < t :: turns[u].fate == Awaited
  {
    if t == 0 {
    } else {
      AllWaitedIff(turns, t - 1);
    }
  }

  /** The responses to turns a up to b, one after the other. */
  function Responses<S>(server: Server<S>, s: S, turns: seq<Turn>, a: nat, b: nat): bytes
    requires a <= b <= |turns|
    decreases b - a
  {
    if a == b then [] else OwnResponse(server, s, turns, a) + Responses(server, s, turns, a + 1, b)
  }

  lemma {:induction false} OneMoreResponse<S>(server: Server<S>, s: S, turns: seq<Turn>, a: nat, b: nat)
    requires a <= b < |turns|
    ensures Responses(server, s, turns, a, b + 1)
            == Responses(server, s, turns, a, b) + OwnResponse(server, s, turns, b)
    decreases b - a
  {
    hide OwnResponse;
    if a == b {
      assert Responses(server, s, turns, b + 1, b + 1) == [];
    } else {
      OneMoreResponse(server, s, turns, a + 1, b);
      var first, middle := OwnResponse(server, s, turns, a), Responses(server, s, turns, a + 1, b);
      assert Responses(server, s, turns, a, b) == first + middle;
      assert Responses(server, s, turns, a, b + 1) == first + Responses(server, s, turns, a + 1, b + 1);
      hide *;
      assert first + (middle + OwnResponse(server, s, turns, b)) == first + middle + OwnResponse(server, s, turns, b);
    }
  }

  /** An orderly session has left the responses after the first ones, as many as calls waited. */
  ghost predicate InOrder<S>(server: Server<S>, s: S, turns: seq<Turn>, t: nat, link: Link<S>)
    requires t <= |turns|
  {
    link == Link(StateBefore(server, s, turns, t), [], Responses(server, s, turns, Waiters(turns, t), t), true)
  }

  lemma NextInOrder<S>(
      server: Server<S>, s: S, turns: seq<Turn>, t: nat, link: Link<S>, ending: Ending)
    requires Orderly(server, s, turns) && t < |turns| && InOrder(server, s, turns, t, link)
    ensures InOrder(server, s, turns, t + 1, Call(server, link, turns[t], ending).0)
    ensures turns[t].fate == Awaited ==>
              Call(server, link, turns[t], ending).1 == Ok(OwnResponse(server, s, turns, Waiters(turns, t)))
  {
    hide Call, WellFormed, StateBefore, Orderly, ParseFrame, Waiters, OwnResponse;
    var k := Waiters(turns, t);
    OrderlyAt(server, s, turns, t);
    OrderlyAt(server, s, turns, k);
    CallWithFrame(server, link, turns[t], ending);
    OneMoreResponse(server, s, turns, k, t);
    WellFormedPrefixIsParsed(OwnResponse(server, s, turns, k), Responses(server, s, turns, k + 1, t + 1), ending);
  }

  lemma OrderlyAt<S>(server: Server<S>, s: S, turns: seq<Turn>, t: nat)
    requires Orderly(server, s, turns) && t < |turns|
    ensures turns[t].fate in {Awaited, Abandoned} && WellFormed(turns[t].body)
    ensures WellFormed(OwnResponse(server, s, turns, t))
    ensures server(StateBefore(server, s, turns, t), turns[t].body)
            == (StateBefore(server, s, turns, t + 1), OwnResponse(server, s, turns, t))
    ensures Waiters(turns, t + 1) == Waiters(turns, t) + if turns[t].fate == Awaited then 1 else 0
  {
    NextState(server, s, turns, t);
    hide StateBefore, WellFormed;
  }

  lemma {:induction false} SessionInOrder<S>(
      server: Server<S>, s: S, turns: seq<Turn>, t: nat, ending: Ending)
    requires Orderly(server, s, turns) && t <= |turns|
    ensures InOrder(server, s, turns, t, LinkAfter(server, s, turns[..t], ending))
  {
    hide Call, Orderly, Serve;
    if t == 0 {
      assert BodiesOf(turns)[..0] == [];
      ServeOne(server, s, []);
    } else {
      hide InOrder;
      SessionInOrder(server, s, turns, t - 1, ending);
      OneMoreTurn(server, s, turns, t - 1, ending);
      NextInOrder(server, s, turns, t - 1, LinkAfter(server, s, turns[..t - 1], ending), ending);
    }
  }

  /** Which response a waiting call takes: if k calls waited before it, that to the k-th request. It is
      its own exactly when no earlier call was given up. */
  lemma WaitingTurnTakes<S>(server: Server<S>, s: S, turns: seq<Turn>, t: nat, ending: Ending)
    requires Orderly(server, s, turns) && t < |turns| && turns[t].fate == Awaited
    ensures LinkAfter(server, s, turns[..t], ending).usable
    ensures ResultAt(server, s, turns, t, ending) == Ok(OwnResponse(server, s, turns, Waiters(turns, t)))
    ensures Waiters(turns, t) == t <==> forall u | 0 <= u < t :: turns[u].fate == Awaited
  {
    SessionInOrder(server, s, turns, t, ending);
    NextInOrder(server, s, turns, t, LinkAfter(server, s, turns[..t], ending), ending);
    AllWaitedIff(turns, t);
    hide Call, Orderly, OwnResponse, Waiters, LinkAfter;
  }

  // ----- Inputs on which a connection comes back out of step -----

  /** A response over 4 MiB: the call refuses its header and gives the connection back usable, with
      the payload still to come. Whatever the next call sends, it reads that payload for a header and
      fails, unless the payload starts with the magic byte. */
  lemma OversizeResponseFailsNext<S>(
      server: Server<S>, s: S, m: bytes, r: bytes, next: bytes, ending: Ending)
    requires |m| <= MAX_PAYLOAD_LENGTH
    requires server(s, Encoded(m)).1 == Encoded(r) && MAX_PAYLOAD_LENGTH < |r| < 0x1_0000_0000 && r[0] != MAGIC
    ensures var (link', result) := Call(server, NewLink(s), Turn(Encoded(m), Awaited), ending);
            && link' == Link(server(s, Encoded(m)).0, [], r, true)
            && result == Err(NoFrame(PayloadTooLarge))
            && Call(server, link', Turn(next, Awaited), ending).1 == Err(NoFrame(InvalidMagic))
            && Call(server, link', Turn(next, Awaited), ending).0.usable
  {
    CallInStep(server, s, m, Encoded(r), r, Awaited, ending);
    hide Encoded, Frames, Serve, Concat, Leftover;
  }

  function Echo(): Server<()> {
    (s: (), f: bytes) => (s, f)
  }

  function Oversized(): Server<()> {
    (s: (), f: bytes) => (s, Encoded(seq(MAX_PAYLOAD_LENGTH + 1, _ => 0)))
  }

  /** The smallest such sessions: the second call gets the first one's response, or none. */
  lemma OutOfStepInputs(ending: Ending)
    ensures var turns := [Turn(Encoded([1]), Abandoned), Turn(Encoded([2]), Awaited)];
            ResultAt(Echo(), (), turns, 1, ending) == Ok(Encoded([1])) && Encoded([1]) != Encoded([2])
    ensures var turns := [Turn(Encoded([]), Awaited), Turn(Encoded([]), Awaited)];
            ResultAt(Oversized(), (), turns, 1, ending) == Err(NoFrame(InvalidMagic))
  {
    GivenUpInput(ending);
    OversizeInput(ending);
  }

  lemma GivenUpInput(ending: Ending)
    ensures var turns := [Turn(Encoded([1]), Abandoned), Turn(Encoded([2]), Awaited)];
            ResultAt(Echo(), (), turns, 1, ending) == Ok(Encoded([1])) && Encoded([1]) != Encoded([2])
  {
    var turns := [Turn(Encoded([1]), Abandoned), Turn(Encoded([2]), Awaited)];
    EncodedRoundTripIff([1], [], ending);
    EncodedRoundTripIff([2], [], ending);
    EncodedLayout([1]);
    EncodedLayout([2]);
    hide Encoded, Call, Serve, WellFormed;
    WaitingTurnTakes(Echo(), (), turns, 1, ending);
  }

  lemma OversizeInput(ending: Ending)
    ensures var turns := [Turn(Encoded([]), Awaited), Turn(Encoded([]), Awaited)];
            ResultAt(Oversized(), (), turns, 1, ending) == Err(NoFrame(InvalidMagic))
  {
    var turns := [Turn(Encoded([]), Awaited), Turn(Encoded([]), Awaited)];
    OversizeResponseFailsNext(Oversized(), (), [], seq(MAX_PAYLOAD_LENGTH + 1, _ => 0), Encoded([]), ending);
    hide Call;
    OneMoreTurn(Oversized(), (), turns, 0, ending);
    OneMoreTurn(Oversized(), (), turns, 1, ending);
    assert LinkAfter(Oversized(), (), turns[..0], ending) == NewLink(());
  }
}
