/** The framer of transport/transport.go over a connection that delivers its bytes in arbitrary
    chunks. */
module Transport {
  import opened Wrappers
  import opened Codec
  import opened Streams

  const DEFAULT_PAYLOAD_LENGTH: nat := 1024

  // ----- Connections -----

  predicate Fits(s: bytes, limit: Option<nat>) {
    limit.None? || |s| <= limit.value
  }

  /** What is left of bytes written to a connection that takes no more than a limit. */
  function Capped(s: bytes, limit: Option<nat>): (c: bytes)
    ensures Fits(c, limit) && c <= s
    ensures c != s ==> limit == Some(|c|)
  {
    if Fits(s, limit) then s else s[..limit.value]
  }

  lemma CappedAppend(a: bytes, b: bytes, limit: Option<nat>)
    ensures Capped(Capped(a, limit) + b, limit) == Capped(a + b, limit)
  {
  }

  /** A connection. `incoming` is what it still delivers before `ending`; the schedule says how many
      bytes the next reads move at most (also none), and when it is used up every read moves all it
      can. Writes fail once `writeLimit` bytes were taken. */
  class Conn {
    var incoming: bytes
    var outgoing: bytes
    var readSchedule: seq<nat>
    const ending: Ending
    const writeLimit: Option<nat>

    constructor (incoming: bytes, ending: Ending, readSchedule: seq<nat>, writeLimit: Option<nat>)
      ensures this.incoming == incoming && this.ending == ending && outgoing == []
      ensures this.readSchedule == readSchedule && this.writeLimit == writeLimit
    {
      this.incoming := incoming;
      this.ending := ending;
      this.readSchedule := readSchedule;
      this.writeLimit := writeLimit;
      outgoing := [];
    }

    method Read(limit: nat) returns (chunk: bytes, err: Option<ReadError>)
      requires limit > 0
      modifies this`incoming, this`readSchedule
      ensures chunk + incoming == old(incoming) && |chunk| <= limit
      ensures err.Some? <==> old(incoming) == []
      ensures err.Some? ==> err.value == ending
      ensures err.None? ==> |readSchedule| < |old(readSchedule)| || (readSchedule == old(readSchedule) && chunk != [])
    {
      if incoming == [] {
        return [], Some(ending);
      }
      var n := if |incoming| < limit then |incoming| else limit;
      if readSchedule != [] {
        n := if readSchedule[0] < n then readSchedule[0] else n;
        readSchedule := readSchedule[1..];
      }
      chunk, err := incoming[..n], None;
      incoming := incoming[n..];
    }

    /** As every Writer, moves all of the data or reports an error. */
    method Write(data: bytes) returns (n: nat, err: Option<ReadError>)
      requires Fits(outgoing, writeLimit)
      modifies this`outgoing
      ensures n <= |data| && outgoing == old(outgoing) + data[..n]
      ensures outgoing == Capped(old(outgoing) + data, writeLimit)
      ensures err == if n < |data| then Some(ReadError.Broken(0)) else None
    {
      n, err := |data|, None;
      if writeLimit.Some? && writeLimit.value - |outgoing| < |data| {
        n, err := writeLimit.value - |outgoing|, Some(ReadError.Broken(0));
      }
      outgoing := outgoing + data[..n];
    }
  }

  /** `io.ReadFull` into the first `want` places of a buffer: whatever the chunks, it consumes
      exactly the bytes asked for, or all there are. */
  method ReadFull(conn: Conn, buffer: array<byte>, want: nat) returns (num: nat, err: Option<ReadError>)
    requires want <= buffer.Length
    modifies conn`incoming, conn`readSchedule, buffer
    ensures num == if |old(conn.incoming)| < want then |old(conn.incoming)| else want
    ensures buffer[..num] == old(conn.incoming)[..num] && buffer[num..] == old(buffer[num..])
    ensures conn.incoming == old(conn.incoming)[num..]
    ensures err == if num < want then Some(ShortRead(num, conn.ending)) else None
  {
    num, err := 0, None;
    ghost var s := conn.incoming;
    while num < want && err.None?
      invariant num <= want && num <= |s| && conn.incoming == s[num..]
      invariant buffer[..num] == s[..num] && buffer[num..] == old(buffer[..])[num..]
      invariant err.Some? ==> num == |s| < want && err.value == conn.ending
      decreases err.None?, |conn.readSchedule|, want - num
    {
      var chunk;
      chunk, err := conn.Read(want - num);
      ghost var before := buffer[..];
      forall i | 0 <= i < |chunk| {
        buffer[num + i] := chunk[i];
      }
      assert s[num..] == chunk + conn.incoming;
      assert buffer[..num + |chunk|] == before[..num] + chunk;
      assert buffer[num + |chunk|..] == before[num..][|chunk|..];
      num := num + |chunk|;
    }
    if num >= want {
      err := None;
    } else if num > 0 && err == Some(Eof) {
      err := Some(UnexpectedEof);
    }
  }

  // ----- The framer -----

  function Pow2(n: nat): (p: nat)
    ensures p > 0
  {
    if n == 0 then 1 else 2 * Pow2(n - 1)
  }

  /** The largest buffer: 12 doublings reach exactly the largest accepted payload. */
  lemma TwelveDoublings()
    ensures DEFAULT_PAYLOAD_LENGTH * Pow2(12) == MAX_PAYLOAD_LENGTH
  {
    assert Pow2(4) == 16;
    assert Pow2(8) == 256;
  }

  /** The header and the first bytes of the buffer, copied to a new array. */
  method Append(header: array<byte>, buffer: array<byte>, length: nat) returns (frame: array<byte>)
    requires length <= buffer.Length
    ensures fresh(frame) && frame[..] == header[..] + buffer[..length]
  {
    frame := new byte[header.Length + length];
    forall i | 0 <= i < header.Length {
      frame[i] := header[i];
    }
    forall i | 0 <= i < length {
      frame[header.Length + i] := buffer[i];
    }
  }

  class Framer {
    var buffer: array<byte>
    var counter: nat

    /** The buffer invariant over any sequence of reads. */
    ghost predicate Valid()
      reads this
    {
      buffer.Length == DEFAULT_PAYLOAD_LENGTH * Pow2(counter) && counter <= 12
    }

    constructor ()
      ensures Valid() && fresh(buffer) && counter == 0
    {
      buffer := new byte[DEFAULT_PAYLOAD_LENGTH];
      counter := 0;
    }

    /** The doubling loop. The bound on `counter` never ends it early: an accepted length always
        fits afterwards, and no doubling is made that is not needed. */
    method Grow(length: nat)
      requires Valid() && length <= MAX_PAYLOAD_LENGTH
      modifies this
      ensures Valid() && length <= buffer.Length
      ensures counter >= old(counter)
      ensures counter > old(counter) ==> DEFAULT_PAYLOAD_LENGTH * Pow2(counter - 1) < length && fresh(buffer)
      ensures counter == old(counter) ==> buffer == old(buffer)
    {
      while buffer.Length < length && counter <= 12
        invariant Valid() && counter >= old(counter)
        invariant counter > old(counter) ==> DEFAULT_PAYLOAD_LENGTH * Pow2(counter - 1) < length && fresh(buffer)
        invariant counter == old(counter) ==> buffer == old(buffer)
        decreases 13 - counter
      {
        TwelveDoublings();
        if counter == 12 {
          assert false;
        }
        buffer := new byte[buffer.Length * 2];
        counter := counter + 1;
      }
      TwelveDoublings();
    }

    /** Reads one frame. The result and what is left on the connection are those of `ParseFrame`,
        whatever the chunking and whatever earlier, longer frames left in the buffer. The frame is
        a new array, so no later read can change it. */
    method ReadFrame(conn: Conn) returns (frame: array?<byte>, err: Option<ReadError>)
      requires Valid()
      modifies this, buffer, conn`incoming, conn`readSchedule
      ensures Valid() && (buffer == old(buffer) || fresh(buffer))
      ensures match ParseFrame(old(conn.incoming), conn.ending)
              case Frame(f, rest) =>
                && err == None && conn.incoming == rest
                && frame != null && fresh(frame) && frame != buffer && frame[..] == f
              case Failed(e, rest) =>
                err == Some(e) && conn.incoming == rest && frame == null
    {
      frame := null;
      ghost var s := conn.incoming;
      var header := new byte[FRAME_HEAD_LEN];
      var num;
      num, err := ReadFull(conn, header, FRAME_HEAD_LEN);
      if num != FRAME_HEAD_LEN || err.Some? {
        return;
      }
      assert header[..] == s[..FRAME_HEAD_LEN];
      if header[0] != MAGIC {
        return null, Some(InvalidMagic);
      }
      HeaderOfPrefix(s, FRAME_HEAD_LEN);
      var length := AnnouncedLength(header[..]);
      if length > MAX_PAYLOAD_LENGTH {
        return null, Some(PayloadTooLarge);
      }
      Grow(length);
      num, err := ReadFull(conn, buffer, length);
      if num != length || err.Some? {
        return;
      }
      frame := Append(header, buffer, length);
      assert s[..FRAME_HEAD_LEN] + s[FRAME_HEAD_LEN..][..length] == s[..FRAME_HEAD_LEN + length];
      assert s[FRAME_HEAD_LEN..][length..] == s[FRAME_HEAD_LEN + length..];
    }
  }

  /** Repeated reads by one framer until the first error: the arrays returned along the way hold,
      when all is read, exactly the frames of the stream. */
  method ReadAllFrames(conn: Conn) returns (frames: seq<array<byte>>, err: ReadError)
    modifies conn`incoming, conn`readSchedule
    ensures |frames| == |Frames(old(conn.incoming), conn.ending)|
    ensures forall i | 0 <= i < |frames| :: frames[i][..] == Frames(old(conn.incoming), conn.ending)[i]
    ensures err == FinalError(old(conn.incoming), conn.ending)
    ensures conn.incoming == Unread(old(conn.incoming), conn.ending)
  {
    hide ParseFrame, Frames, FinalError, Unread;
    var framer := new Framer();
    frames := [];
    ghost var s, ending := conn.incoming, conn.ending;
    ghost var all := Frames(s, ending);
    while true
      invariant framer.Valid() && fresh(framer) && fresh(framer.buffer)
      invariant forall i | 0 <= i < |frames| :: fresh(frames[i]) && frames[i] != framer.buffer
      invariant |frames| <= |all| && Frames(conn.incoming, ending) == all[|frames|..]
      invariant forall i | 0 <= i < |frames| :: frames[i][..] == all[i]
      invariant FinalError(conn.incoming, ending) == FinalError(s, ending)
      invariant Unread(conn.incoming, ending) == Unread(s, ending)
      decreases |conn.incoming|
    {
      FirstFrame(conn.incoming, ending);
      var frame, last := framer.ReadFrame(conn);
      if last.Some? {
        return frames, last.value;
      }
      frames := frames + [frame];
    }
  }
}
