/** What a framer does to a byte stream (transport/transport.go), apart from its buffer: one frame
    off the front, and the list of frames a whole stream starts with. */
module Streams {
  import opened Wrappers
  import opened Codec

  const MAX_PAYLOAD_LENGTH: nat := 4 * 1024 * 1024

  /** How a read can fail. `Broken` stands for any error of the connection other than its end. */
  datatype ReadError = Eof | UnexpectedEof | Broken(code: int) | InvalidMagic | PayloadTooLarge

  /** The error a connection reports once its bytes are used up. */
  type Ending = e: ReadError | e.Eof? || e.Broken? witness Eof

  /** What `io.ReadFull` makes of the connection's ending when it got fewer bytes than it wanted. */
  function ShortRead(got: nat, ending: Ending): ReadError {
    if got > 0 && ending == Eof then UnexpectedEof else ending
  }

  datatype Parsed = Frame(frame: bytes, rest: bytes) | Failed(error: ReadError, rest: bytes)

  /** One `ReadFrame` on a connection that delivers s and then ends. */
  function ParseFrame(s: bytes, ending: Ending): (p: Parsed)
    ensures p.Frame? ==> FRAME_HEAD_LEN <= |p.frame| && |p.rest| < |s|
  {
    if |s| < FRAME_HEAD_LEN then Failed(ShortRead(|s|, ending), [])
    else if s[0] != MAGIC then Failed(InvalidMagic, s[FRAME_HEAD_LEN..])
    else if AnnouncedLength(s) > MAX_PAYLOAD_LENGTH then Failed(PayloadTooLarge, s[FRAME_HEAD_LEN..])
    else
      var end := FRAME_HEAD_LEN + AnnouncedLength(s);
      if |s| < end then Failed(ShortRead(|s| - FRAME_HEAD_LEN, ending), [])
      else Frame(s[..end], s[end..])
  }

  /** A complete frame: the magic byte first, and exactly the announced payload after the header. */
  ghost predicate WellFormed(f: bytes) {
    && FRAME_HEAD_LEN <= |f| <= FRAME_HEAD_LEN + MAX_PAYLOAD_LENGTH
    && f[0] == MAGIC
    && AnnouncedLength(f) == |f| - FRAME_HEAD_LEN
  }

  lemma HeaderOfPrefix(s: bytes, n: nat)
    requires FRAME_HEAD_LEN <= n <= |s|
    ensures AnnouncedLength(s[..n]) == AnnouncedLength(s)
  {
    assert s[..n][7..11] == s[7..11];
  }

  /** Exact consumption: a frame is read if and only if some prefix of the stream is well formed.
      That prefix is the frame returned, and the rest of the stream is left unread. */
  lemma ParsesIffWellFormedPrefix(s: bytes, ending: Ending)
    ensures ParseFrame(s, ending).Frame? <==> exists f :: f <= s && WellFormed(f)
    ensures ParseFrame(s, ending).Frame? ==>
              var p := ParseFrame(s, ending);
              && p.frame + p.rest == s && WellFormed(p.frame)
              && forall f | f <= s && WellFormed(f) :: f == p.frame
  {
    if ParseFrame(s, ending).Frame? {
      var p := ParseFrame(s, ending);
      assert p.frame == s[..|p.frame|];
      HeaderOfPrefix(s, |p.frame|);
      assert p.frame <= s && WellFormed(p.frame);
    }
    forall f | f <= s && WellFormed(f)
      ensures ParseFrame(s, ending) == Frame(f, s[|f|..])
    {
      assert f[7..11] == s[7..11];
      assert f == s[..|f|];
    }
  }

  /** How a read fails, and what it consumes: a bad magic byte and too long a payload are told by the
      header, which is all that is consumed; else the stream is too short, all of it is consumed, and
      its end is reported, as unexpected if it came in the middle of the header or of the payload. */
  lemma ParseFailureIff(s: bytes, ending: Ending)
    ensures ParseFrame(s, ending) == Failed(InvalidMagic, if |s| < 15 then [] else s[15..]) <==>
            |s| >= 15 && s[0] != 0x11
    ensures ParseFrame(s, ending) == Failed(PayloadTooLarge, if |s| < 15 then [] else s[15..]) <==>
            |s| >= 15 && s[0] == 0x11 && AnnouncedLength(s) > 4194304
    ensures var missing := |s| < 15 || (s[0] == 0x11 && |s| - 15 < AnnouncedLength(s) <= 4194304);
            && (missing ==> ParseFrame(s, ending) ==
                            Failed(if ending == Eof && |s| != 0 && |s| != 15 then UnexpectedEof else ending, []))
            && (ParseFrame(s, ending) == Failed(ending, []) ==> missing)
            && (ParseFrame(s, ending) == Failed(UnexpectedEof, []) ==> missing)
  {
  }

  lemma WellFormedPrefixIsParsed(f: bytes, rest: bytes, ending: Ending)
    requires WellFormed(f)
    ensures ParseFrame(f + rest, ending) == Frame(f, rest)
  {
    assert (f + rest)[7..11] == f[7..11];
    assert (f + rest)[..|f|] == f && (f + rest)[|f|..] == rest;
  }

  /** An encoded payload comes back whole if and only if it has at most 4 MiB. (A longer one is
      refused, or, once its length wraps around 2^32, cut short.) */
  lemma EncodedRoundTripIff(payload: bytes, rest: bytes, ending: Ending)
    ensures WellFormed(Encoded(payload)) <==> |payload| <= MAX_PAYLOAD_LENGTH
    ensures ParseFrame(Encoded(payload) + rest, ending) == Frame(Encoded(payload), rest)
            <==> |payload| <= MAX_PAYLOAD_LENGTH
    ensures MAX_PAYLOAD_LENGTH < |payload| < 0x1_0000_0000 ==>
              ParseFrame(Encoded(payload) + rest, ending)
              == Failed(PayloadTooLarge, (Encoded(payload) + rest)[FRAME_HEAD_LEN..])
  {
    EncodedLayout(payload);
    var s := Encoded(payload) + rest;
    assert s[7..11] == Encoded(payload)[7..11];
    if |payload| <= MAX_PAYLOAD_LENGTH {
      WellFormedPrefixIsParsed(Encoded(payload), rest, ending);
    }
  }

  // ----- Whole streams -----

  /** The frames a stream starts with, up to the first failure. */
  function Frames(s: bytes, ending: Ending): (frames: seq<bytes>)
    ensures forall i | 0 <= i < |frames| :: FRAME_HEAD_LEN <= |frames[i]|
    decreases |s|
  {
    match ParseFrame(s, ending)
    case Frame(f, rest) => [f] + Frames(rest, ending)
    case Failed(_, _) => []
  }

  /** The failure that ends the reading of a stream. */
  function FinalError(s: bytes, ending: Ending): ReadError
    decreases |s|
  {
    match ParseFrame(s, ending)
    case Frame(_, rest) => FinalError(rest, ending)
    case Failed(e, _) => e
  }

  /** What is left unread after that failure. */
  function Unread(s: bytes, ending: Ending): bytes
    decreases |s|
  {
    match ParseFrame(s, ending)
    case Frame(_, rest) => Unread(rest, ending)
    case Failed(_, rest) => rest
  }

  /** What is left of a stream after its leading frames. */
  function Leftover(s: bytes, ending: Ending): bytes
    decreases |s|
  {
    match ParseFrame(s, ending)
    case Frame(_, rest) => Leftover(rest, ending)
    case Failed(_, _) => s
  }

  /** The definitions above, unfolded once. */
  lemma FirstFrame(s: bytes, ending: Ending)
    ensures match ParseFrame(s, ending)
            case Frame(f, rest) =>
              && Frames(s, ending) == [f] + Frames(rest, ending)
              && FinalError(s, ending) == FinalError(rest, ending)
              && Unread(s, ending) == Unread(rest, ending)
              && Leftover(s, ending) == Leftover(rest, ending)
            case Failed(e, rest) =>
              && Frames(s, ending) == [] && Leftover(s, ending) == s
              && FinalError(s, ending) == e && Unread(s, ending) == rest
  {
  }

  function Concat(parts: seq<bytes>): bytes {
    if parts == [] then [] else parts[0] + Concat(parts[1..])
  }

  lemma {:induction false} ConcatAppend(a: seq<bytes>, b: seq<bytes>)
    ensures Concat(a + b) == Concat(a) + Concat(b)
  {
    if a == [] {
      assert a + b == b;
    } else {
      assert (a + b)[1..] == a[1..] + b;
      ConcatAppend(a[1..], b);
    }
  }

  lemma LeadingFrame(f: bytes, rest: bytes, ending: Ending)
    requires WellFormed(f)
    ensures Frames(f + rest, ending) == [f] + Frames(rest, ending)
    ensures FinalError(f + rest, ending) == FinalError(rest, ending)
    ensures Unread(f + rest, ending) == Unread(rest, ending)
  {
    WellFormedPrefixIsParsed(f, rest, ending);
    hide ParseFrame;
  }

  /** Well-formed frames followed by anything are read back one by one, and reading goes on after
      them as it would have on the tail alone. */
  lemma {:induction false} FramesOfConcat(fs: seq<bytes>, tail: bytes, ending: Ending)
    requires forall f | f in fs :: WellFormed(f)
    ensures Frames(Concat(fs) + tail, ending) == fs + Frames(tail, ending)
    ensures FinalError(Concat(fs) + tail, ending) == FinalError(tail, ending)
    ensures Unread(Concat(fs) + tail, ending) == Unread(tail, ending)
  {
    hide Frames, FinalError, Unread, WellFormed;
    if fs == [] {
      assert Concat(fs) + tail == tail;
    } else {
      var rest := Concat(fs[1..]) + tail;
      assert Concat(fs) + tail == fs[0] + rest;
      LeadingFrame(fs[0], rest, ending);
      FramesOfConcat(fs[1..], tail, ending);
      assert [fs[0]] + fs[1..] == fs;
    }
  }

  lemma ConcatOneMore(f: bytes, fs: seq<bytes>)
    ensures Concat([f] + fs) == f + Concat(fs)
  {
    assert ([f] + fs)[1..] == fs;
  }

  lemma {:induction false} FramesThenLeftover(s: bytes, ending: Ending)
    ensures s == Concat(Frames(s, ending)) + Leftover(s, ending)
    decreases |s|
  {
    ParsesIffWellFormedPrefix(s, ending);
    match ParseFrame(s, ending)
    case Frame(f, rest) =>
      FramesThenLeftover(rest, ending);
      FirstFrame(s, ending);
      hide Frames, Leftover, WellFormed;
      ConcatOneMore(f, Frames(rest, ending));
    case Failed(_, _) =>
      assert Concat([]) + s == s;
  }

  lemma {:induction false} FramesAreWellFormed(s: bytes, ending: Ending)
    ensures forall f | f in Frames(s, ending) :: WellFormed(f)
    ensures forall f | f <= Leftover(s, ending) :: !WellFormed(f)
    decreases |s|
  {
    ParsesIffWellFormedPrefix(s, ending);
    FirstFrame(s, ending);
    hide Frames, Leftover, WellFormed;
    match ParseFrame(s, ending)
    case Frame(f, rest) =>
      FramesAreWellFormed(rest, ending);
    case Failed(_, _) =>
  }

  /** Every stream splits into its leading frames and a tail that no frame starts. */
  lemma StreamSplits(s: bytes, ending: Ending)
    ensures s == Concat(Frames(s, ending)) + Leftover(s, ending)
    ensures forall f | f in Frames(s, ending) :: WellFormed(f)
    ensures forall f | f <= Leftover(s, ending) :: !WellFormed(f)
  {
    hide *;
    FramesThenLeftover(s, ending);
    FramesAreWellFormed(s, ending);
  }

  lemma {:induction false} LeftoverOfConcat(fs: seq<bytes>, tail: bytes, ending: Ending)
    requires forall f | f in fs :: WellFormed(f)
    ensures Leftover(Concat(fs) + tail, ending) == Leftover(tail, ending)
  {
    hide WellFormed;
    if fs == [] {
      assert Concat(fs) + tail == tail;
    } else {
      var rest := Concat(fs[1..]) + tail;
      assert Concat(fs) + tail == fs[0] + rest;
      WellFormedPrefixIsParsed(fs[0], rest, ending);
      hide ParseFrame;
      LeftoverOfConcat(fs[1..], tail, ending);
    }
  }

  /** Reading may stop anywhere in a stream and go on later: what comes of a stream in two parts is
      what comes of the first part, and then of what that leaves together with the second. */
  lemma ReadingContinues(a: bytes, b: bytes, ending: Ending)
    ensures Frames(a + b, ending) == Frames(a, ending) + Frames(Leftover(a, ending) + b, ending)
    ensures Leftover(a + b, ending) == Leftover(Leftover(a, ending) + b, ending)
  {
    StreamSplits(a, ending);
    hide Frames, Leftover, WellFormed;
    var fs, rest := Frames(a, ending), Leftover(a, ending) + b;
    assert Concat(fs) + rest == a + b;
    FramesOfConcat(fs, rest, ending);
    LeftoverOfConcat(fs, rest, ending);
  }

  function EncodedAll(payloads: seq<bytes>): (frames: seq<bytes>)
    ensures |frames| == |payloads|
  {
    seq(|payloads|, i requires 0 <= i < |payloads| => Encoded(payloads[i]))
  }

  /** Stream round trip: the concatenated encodings of payloads of at most 4 MiB are read back as
      exactly those frames, each decodes to its payload, and then the connection's end is reported. */
  lemma StreamRoundTrip(payloads: seq<bytes>, ending: Ending)
    requires forall p | p in payloads :: |p| <= MAX_PAYLOAD_LENGTH
    ensures Frames(Concat(EncodedAll(payloads)), ending) == EncodedAll(payloads)
    ensures FinalError(Concat(EncodedAll(payloads)), ending) == ending
    ensures forall i | 0 <= i < |payloads| :: Decoded(EncodedAll(payloads)[i]) == payloads[i]
  {
    var fs := EncodedAll(payloads);
    forall i | 0 <= i < |payloads|
      ensures WellFormed(fs[i]) && Decoded(fs[i]) == payloads[i]
    {
      EncodedRoundTripIff(payloads[i], [], ending);
      EncodedLayout(payloads[i]);
    }
    FramesOfConcat(fs, [], ending);
    assert Concat(fs) + [] == Concat(fs) && fs + [] == fs;
  }

  /** A stream that simply ends is reported as ended, and not as cut off, exactly when nothing or
      one bare header is left of it: a frame whose payload is missing altogether passes for a clean
      end of the connection. */
  lemma CleanEndIff(s: bytes)
    ensures FinalError(s, Eof) == Eof <==> exists tail ::
              s == Concat(Frames(s, Eof)) + tail && (tail == [] || IsBareHeader(tail))
  {
    var end := Leftover(s, Eof);
    StreamSplits(s, Eof);
    FramesOfConcat(Frames(s, Eof), end, Eof);
    NoFrameLeft(end);
    forall tail | s == Concat(Frames(s, Eof)) + tail
      ensures tail == end
    {
      assert tail == s[|Concat(Frames(s, Eof))|..] == end;
    }
  }

  /** A header that announces a payload, and nothing after it. */
  ghost predicate IsBareHeader(s: bytes) {
    |s| == FRAME_HEAD_LEN && s[0] == MAGIC && 0 < AnnouncedLength(s) <= MAX_PAYLOAD_LENGTH
  }

  /** The header alone of a frame with one byte of payload. */
  lemma BareHeaderInput()
    ensures var s := [MAGIC, 0, 0, 0, 0, 0, 0, 0, 0, 0, 1, 0, 0, 0, 0];
            IsBareHeader(s) && Frames(s, Eof) == [] && FinalError(s, Eof) == Eof
  {
    var s := [MAGIC, 0, 0, 0, 0, 0, 0, 0, 0, 0, 1, 0, 0, 0, 0];
    assert s[7..11] == [0, 0, 0, 1];
  }

  lemma NoFrameLeft(tail: bytes)
    requires forall f | f <= tail :: !WellFormed(f)
    ensures FinalError(tail, Eof) == Eof <==> tail == [] || IsBareHeader(tail)
  {
    ParsesIffWellFormedPrefix(tail, Eof);
  }
}
