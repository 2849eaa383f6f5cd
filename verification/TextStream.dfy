// The line-oriented receiver of the text protocol: ChassisPacketStream in
// chassis_packet.cpp.  `parse` stands for ParsePacketLine, a total function of the line.
module TextStream {
  import opened Common
  import opened ChassisPacket

  type Line = seq<byte>
  type LineParser = Line -> Option<Packet>

  const NEWLINE: byte := 10

  /** `buffer.find('\n')`. */
  function FindNewline(b: seq<byte>): (at: Option<nat>)
    ensures at.None? <==> NEWLINE !in b
    ensures at.Some? ==> at.value < |b| && b[at.value] == NEWLINE && NEWLINE !in b[..at.value]
  {
    if b == [] then None
    else if b[0] == NEWLINE then Some(0)
    else
      match FindNewline(b[1..])
      case None => None
      case Some(k) =>
        assert b[..k + 1] == [b[0]] + b[1..][..k];
        Some(k + 1)
  }

  datatype Drained = Drained(packets: seq<Packet>, rest: seq<byte>, invalid: nat)

  function After(packets: seq<Packet>, invalid: nat, d: Drained): Drained {
    Drained(packets + d.packets, d.rest, invalid + d.invalid)
  }

  function LinePackets(parse: LineParser, line: Line): seq<Packet> {
    match parse(line)
    case Some(packet) => [packet]
    case None => []
  }

  /** A line that is neither a packet nor empty is invalid. */
  function LineErrors(parse: LineParser, line: Line): nat {
    if parse(line).None? && line != [] then 1 else 0
  }

  /** Everything one call of DrainPackets does to a buffer. */
  function Drain(parse: LineParser, b: seq<byte>): Drained
    decreases |b|
  {
    match FindNewline(b)
    case None => Drained([], b, 0)
    case Some(k) => After(LinePackets(parse, b[..k]), LineErrors(parse, b[..k]), Drain(parse, b[k + 1..]))
  }

  class ChassisPacketStream {
    const parse: LineParser
    const maxBufferBytes: nat
    var buffer: seq<byte>
    var overflowed: bool
    var invalidLineCount: nat

    constructor (parse: LineParser, maxBufferBytes: nat)
      ensures this.parse == parse && this.maxBufferBytes == maxBufferBytes
      ensures buffer == [] && !overflowed && invalidLineCount == 0
    {
      this.parse, this.maxBufferBytes := parse, maxBufferBytes;
      buffer, overflowed, invalidLineCount := [], false, 0;
    }

    method Append(data: seq<byte>)
      modifies this
      ensures invalidLineCount == old(invalidLineCount)
      ensures overflowed == (old(overflowed) || |old(buffer) + data| > maxBufferBytes)
      ensures buffer == if |old(buffer) + data| > maxBufferBytes then [] else old(buffer) + data
    {
      buffer := buffer + data;
      if |buffer| > maxBufferBytes {
        buffer := [];
        overflowed := true;
      }
    }

    method DrainPackets() returns (packets: seq<Packet>)
      modifies this
      ensures overflowed == old(overflowed)
      ensures packets == Drain(parse, old(buffer)).packets
      ensures buffer == Drain(parse, old(buffer)).rest
      ensures invalidLineCount == old(invalidLineCount) + Drain(parse, old(buffer)).invalid
    {
      hide Drain, After, FindNewline;
      packets := [];
      ghost var errors: nat := 0;
      AfterNothing(Drain(parse, buffer));
      var newline := FindNewline(buffer);
      while newline.Some?
        invariant overflowed == old(overflowed) && newline == FindNewline(buffer)
        invariant invalidLineCount == old(invalidLineCount) + errors
        invariant Drain(parse, old(buffer)) == After(packets, errors, Drain(parse, buffer))
        decreases |buffer|
      {
        var line := buffer[..newline.value];
        Collect(parse, packets, errors, buffer);
        buffer := buffer[newline.value + 1..];
        match parse(line) {
          case Some(packet) => packets := packets + [packet];
          case None =>
            assert packets + [] == packets;
            if line != [] {
              invalidLineCount, errors := invalidLineCount + 1, errors + 1;
            }
        }
        newline := FindNewline(buffer);
      }
      DrainNothing(parse, buffer);
      NothingAfter(packets, errors, buffer);
    }

    method ClearOverflow()
      modifies this`overflowed
      ensures !overflowed
    {
      overflowed := false;
    }

    method ClearInvalidLineCount()
      modifies this`invalidLineCount
      ensures invalidLineCount == 0
    {
      invalidLineCount := 0;
    }
  }

  lemma AfterAfter(p: seq<Packet>, m: nat, q: seq<Packet>, n: nat, d: Drained)
    ensures After(p, m, After(q, n, d)) == After(p + q, m + n, d)
  {
    assert p + (q + d.packets) == (p + q) + d.packets;
  }

  lemma DrainNothing(parse: LineParser, b: seq<byte>)
    requires NEWLINE !in b
    ensures Drain(parse, b) == Drained([], b, 0)
  {
  }

  lemma DrainNext(parse: LineParser, b: seq<byte>)
    requires FindNewline(b).Some?
    ensures var k := FindNewline(b).value;
      Drain(parse, b) == After(LinePackets(parse, b[..k]), LineErrors(parse, b[..k]), Drain(parse, b[k + 1..]))
  {
    hide LinePackets, LineErrors, After;
  }

  /** One line read adds its packet or its error to what has been collected so far. */
  lemma Collect(parse: LineParser, packets: seq<Packet>, errors: nat, b: seq<byte>)
    requires FindNewline(b).Some?
    ensures var k := FindNewline(b).value;
      After(packets, errors, Drain(parse, b)) ==
      After(packets + LinePackets(parse, b[..k]), errors + LineErrors(parse, b[..k]), Drain(parse, b[k + 1..]))
  {
    hide LinePackets, LineErrors, Drain, FindNewline, After;
    var k := FindNewline(b).value;
    DrainNext(parse, b);
    AfterAfter(packets, errors, LinePackets(parse, b[..k]), LineErrors(parse, b[..k]), Drain(parse, b[k + 1..]));
  }

  lemma AfterNothing(d: Drained)
    ensures After([], 0, d) == d
  {
  }

  lemma NothingAfter(packets: seq<Packet>, errors: nat, b: seq<byte>)
    ensures After(packets, errors, Drained([], b, 0)) == Drained(packets, b, errors)
  {
  }

  // ---------------------------------------------------------------- lines

  /** Complete lines, each followed by its newline, then an unfinished one. */
  function Text(lines: seq<Line>, unfinished: Line): seq<byte> {
    if lines == [] then unfinished else lines[0] + [NEWLINE] + Text(lines[1..], unfinished)
  }

  predicate OneLineEach(lines: seq<Line>) {
    lines == [] || (NEWLINE !in lines[0] && OneLineEach(lines[1..]))
  }

  function ParseAll(parse: LineParser, lines: seq<Line>): seq<Packet> {
    if lines == [] then []
    else if parse(lines[0]).Some? then [parse(lines[0]).value] + ParseAll(parse, lines[1..])
    else ParseAll(parse, lines[1..])
  }

  /** The lines that are not blank and do not parse. */
  function CountInvalid(parse: LineParser, lines: seq<Line>): nat {
    if lines == [] then 0
    else if |lines[0]| > 0 && parse(lines[0]).None? then 1 + CountInvalid(parse, lines[1..])
    else CountInvalid(parse, lines[1..])
  }

  lemma {:induction false} FirstNewline(b: seq<byte>, n: nat)
    requires n < |b| && b[n] == NEWLINE && NEWLINE !in b[..n]
    ensures FindNewline(b) == Some(n)
  {
    if n > 0 {
      assert b[0] == b[..n][0];
      assert b[1..][..n - 1] == b[..n][1..];
      FirstNewline(b[1..], n - 1);
    }
  }

  lemma NewlineAfter(line: Line, more: seq<byte>)
    requires NEWLINE !in line
    ensures var b := line + [NEWLINE] + more;
      FindNewline(b) == Some(|line|) && b[..|line|] == line && b[|line| + 1..] == more
  {
    var b := line + [NEWLINE] + more;
    assert b[..|line|] == line;
    FirstNewline(b, |line|);
  }

  /** A drain yields exactly the parse of the complete lines, and keeps the unfinished one. */
  lemma {:induction false} DrainReadsLines(parse: LineParser, lines: seq<Line>, unfinished: Line)
    requires OneLineEach(lines) && NEWLINE !in unfinished
    ensures Drain(parse, Text(lines, unfinished)) ==
            Drained(ParseAll(parse, lines), unfinished, CountInvalid(parse, lines))
  {
    if lines != [] {
      hide FindNewline;
      NewlineAfter(lines[0], Text(lines[1..], unfinished));
      DrainReadsLines(parse, lines[1..], unfinished);
    }
  }

  lemma {:induction false} DrainKeepsNoNewline(parse: LineParser, b: seq<byte>)
    ensures NEWLINE !in Drain(parse, b).rest
    decreases |b|
  {
    match FindNewline(b)
    case None =>
    case Some(k) => DrainKeepsNoNewline(parse, b[k + 1..]);
  }

  lemma {:induction false} DrainAppend(parse: LineParser, a: seq<byte>, b: seq<byte>)
    ensures Drain(parse, a + b) ==
            After(Drain(parse, a).packets, Drain(parse, a).invalid, Drain(parse, Drain(parse, a).rest + b))
    decreases |a|
  {
    hide LinePackets, LineErrors;
    match FindNewline(a)
    case None =>
    case Some(k) =>
      var line, more := a[..k], a[k + 1..];
      assert a + b == line + [NEWLINE] + (more + b);
      NewlineAfter(line, more + b);
      DrainAppend(parse, more, b);
      AfterAfter(LinePackets(parse, line), LineErrors(parse, line), Drain(parse, more).packets,
                 Drain(parse, more).invalid, Drain(parse, Drain(parse, more).rest + b));
  }

  // ---------------------------------------------------------------- chunked runs

  /** Some Append of the run makes the buffer longer than the limit. */
  predicate Overflows(parse: LineParser, limit: nat, buffer: seq<byte>, chunks: seq<seq<byte>>)
    decreases |chunks|
  {
    chunks != [] &&
    (|buffer + chunks[0]| > limit ||
     Overflows(parse, limit, Drain(parse, buffer + chunks[0]).rest, chunks[1..]))
  }

  /** Append and drain each chunk in turn, with no limit on the buffer. */
  function Receive(parse: LineParser, buffer: seq<byte>, chunks: seq<seq<byte>>): Drained
    decreases |chunks|
  {
    if chunks == [] then Drained([], buffer, 0)
    else
      var d := Drain(parse, buffer + chunks[0]);
      After(d.packets, d.invalid, Receive(parse, d.rest, chunks[1..]))
  }

  datatype Received = Received(packets: seq<Packet>, buffer: seq<byte>, invalid: nat, overflowed: bool)

  function Then(packets: seq<Packet>, invalid: nat, overflowed: bool, r: Received): Received {
    Received(packets + r.packets, r.buffer, invalid + r.invalid, overflowed || r.overflowed)
  }

  /** The buffer after Append, which clears it when it grows beyond the limit. */
  function Joined(limit: nat, buffer: seq<byte>, chunk: seq<byte>): seq<byte> {
    if |buffer + chunk| > limit then [] else buffer + chunk
  }

  /** Append and drain each chunk in turn, overflowing or not. */
  function ReceiveWithin(parse: LineParser, limit: nat, buffer: seq<byte>, chunks: seq<seq<byte>>): Received
    decreases |chunks|
  {
    if chunks == [] then Received([], buffer, 0, false)
    else
      var d := Drain(parse, Joined(limit, buffer, chunks[0]));
      Then(d.packets, d.invalid, |buffer + chunks[0]| > limit, ReceiveWithin(parse, limit, d.rest, chunks[1..]))
  }

  method ReceiveAll(stream: ChassisPacketStream, chunks: seq<seq<byte>>) returns (packets: seq<Packet>)
    modifies stream
    ensures var r := ReceiveWithin(stream.parse, stream.maxBufferBytes, old(stream.buffer), chunks);
      && packets == r.packets && stream.buffer == r.buffer
      && stream.invalidLineCount == old(stream.invalidLineCount) + r.invalid
      && stream.overflowed == (old(stream.overflowed) || r.overflowed)
  {
    hide Drain, ReceiveWithin;
    packets := [];
    ghost var parse, limit, start := stream.parse, stream.maxBufferBytes, stream.buffer;
    ghost var errors: nat, over: bool := 0, false;
    for i := 0 to |chunks|
      invariant stream.invalidLineCount == old(stream.invalidLineCount) + errors
      invariant stream.overflowed == (old(stream.overflowed) || over)
      invariant ReceiveWithin(parse, limit, start, chunks) ==
                Then(packets, errors, over, ReceiveWithin(parse, limit, stream.buffer, chunks[i..]))
    {
      ghost var before := stream.buffer;
      stream.Append(chunks[i]);
      ghost var d := Drain(parse, stream.buffer);
      var more := stream.DrainPackets();
      WithinNext(parse, limit, before, chunks, i, packets, errors, over);
      assert d == Drain(parse, Joined(limit, before, chunks[i]));
      packets := packets + more;
      errors, over := errors + d.invalid, over || |before + chunks[i]| > limit;
    }
    assert chunks[|chunks|..] == [];
    WithinNothing(parse, limit, stream.buffer);
  }

  lemma WithinNothing(parse: LineParser, limit: nat, buffer: seq<byte>)
    ensures ReceiveWithin(parse, limit, buffer, []) == Received([], buffer, 0, false)
  {
  }

  lemma WithinNext(parse: LineParser, limit: nat, buffer: seq<byte>, chunks: seq<seq<byte>>, i: nat,
                   packets: seq<Packet>, errors: nat, over: bool)
    requires i < |chunks|
    ensures var d := Drain(parse, Joined(limit, buffer, chunks[i]));
      Then(packets, errors, over, ReceiveWithin(parse, limit, buffer, chunks[i..])) ==
      Then(packets + d.packets, errors + d.invalid, over || |buffer + chunks[i]| > limit,
           ReceiveWithin(parse, limit, d.rest, chunks[i + 1..]))
  {
    hide Drain;
    assert chunks[i..][1..] == chunks[i + 1..];
  }

  /** A run overflows exactly when some append does, and otherwise the limit plays no part. */
  lemma {:induction false} WithinTheLimit(parse: LineParser, limit: nat, buffer: seq<byte>, chunks: seq<seq<byte>>)
    ensures ReceiveWithin(parse, limit, buffer, chunks).overflowed <==> Overflows(parse, limit, buffer, chunks)
    ensures !Overflows(parse, limit, buffer, chunks) ==>
              var d := Receive(parse, buffer, chunks);
              ReceiveWithin(parse, limit, buffer, chunks) == Received(d.packets, d.rest, d.invalid, false)
    decreases |chunks|
  {
    hide Drain;
    if chunks != [] && |buffer + chunks[0]| <= limit {
      WithinTheLimit(parse, limit, Drain(parse, buffer + chunks[0]).rest, chunks[1..]);
    }
  }

  /**
   * Chunk independence: any chunking of any bytes gives the same packets, the same remainder and
   * the same invalid count as a single append and drain of all of them.
   */
  lemma {:induction false} ChunkingIsInvisible(parse: LineParser, buffer: seq<byte>, chunks: seq<seq<byte>>)
    requires NEWLINE !in buffer
    ensures Receive(parse, buffer, chunks) == Drain(parse, buffer + Flatten(chunks))
    decreases |chunks|
  {
    hide FindNewline, Drain;
    if chunks == [] {
      assert buffer + Flatten(chunks) == buffer;
      DrainNothing(parse, buffer);
    } else {
      var joined := buffer + chunks[0];
      DrainKeepsNoNewline(parse, joined);
      ChunkingIsInvisible(parse, Drain(parse, joined).rest, chunks[1..]);
      assert buffer + Flatten(chunks) == joined + Flatten(chunks[1..]);
      DrainAppend(parse, joined, Flatten(chunks[1..]));
    }
  }
}
