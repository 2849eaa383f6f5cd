// The one field of the adapter's state that shows how the text was split over reads: the
// fault code, and exactly when it does.
module ChassisFaults {
  import opened Common
  import opened ChassisPacket
  import opened Kinematics
  import opened ChassisAdapter
  import Text = TextStream

  // ---------------------------------------------------------------- the latest report

  /** The fault code of the last packet; every packet reports one. */
  function LastFault(packets: seq<Packet>): FaultCode
    requires packets != []
  {
    SaysFault(packets[|packets| - 1]).value
  }

  predicate LastReportsMalformed(packets: seq<Packet>) {
    packets != [] && LastFault(packets) == MalformedPacket
  }

  lemma LatestFault(packets: seq<Packet>, otherwise: FaultCode)
    ensures Latest(packets, SaysFault, otherwise) == if packets == [] then otherwise else LastFault(packets)
  {
  }

  // ---------------------------------------------------------------- the fault code after a series of reads

  /** A read completes an invalid line, and after the last such read a later one completes a packet. */
  predicate Masked(parse: Text.LineParser, buffer: seq<byte>, chunks: seq<seq<byte>>)
    decreases |chunks|
  {
    chunks != [] &&
    var d := Text.Drain(parse, buffer + chunks[0]);
    var later := Text.Drain(parse, d.rest + Flatten(chunks[1..]));
    if later.invalid > 0 then Masked(parse, d.rest, chunks[1..]) else d.invalid > 0 && later.packets != []
  }

  /** What the first read and the rest of the reads make of the text. */
  lemma FirstAndLater(parse: Text.LineParser, buffer: seq<byte>, chunks: seq<seq<byte>>)
    requires chunks != [] && Text.NEWLINE !in buffer
    ensures var d := Text.Drain(parse, buffer + chunks[0]);
      && Text.NEWLINE !in d.rest
      && Text.Drain(parse, buffer + Flatten(chunks)) ==
           Text.After(d.packets, d.invalid, Text.Drain(parse, d.rest + Flatten(chunks[1..])))
  {
    hide Text.Drain;
    var joined := buffer + chunks[0];
    Text.DrainKeepsNoNewline(parse, joined);
    assert buffer + Flatten(chunks) == joined + Flatten(chunks[1..]);
    Text.DrainAppend(parse, joined, Flatten(chunks[1..]));
  }

  lemma {:induction false} MaskedMeans(parse: Text.LineParser, buffer: seq<byte>, chunks: seq<seq<byte>>)
    requires Text.NEWLINE !in buffer && Masked(parse, buffer, chunks)
    ensures var d := Text.Drain(parse, buffer + Flatten(chunks)); d.invalid > 0 && d.packets != []
    decreases |chunks|
  {
    hide Text.Drain;
    FirstAndLater(parse, buffer, chunks);
    var rest := Text.Drain(parse, buffer + chunks[0]).rest;
    if Text.Drain(parse, rest + Flatten(chunks[1..])).invalid > 0 {
      MaskedMeans(parse, rest, chunks[1..]);
    }
  }

  /** The fault code the whole text leaves, if an error in it is or is not masked. */
  function FaultOf(d: Text.Drained, masked: bool, before: FaultCode): FaultCode {
    if d.invalid > 0 && !masked then MalformedPacket
    else if d.packets == [] then before
    else LastFault(d.packets)
  }

  lemma {:induction false} FaultAfterReads(parse: Text.LineParser, limit: nat, drive: Drive, g: Geometry,
                                           link: Link, chunks: seq<seq<byte>>)
    requires Text.NEWLINE !in link.buffer && !Text.Overflows(parse, limit, link.buffer, chunks)
    ensures ReadsText(parse, limit, drive, g, link, chunks).state.faultCode ==
            FaultOf(Text.Drain(parse, link.buffer + Flatten(chunks)), Masked(parse, link.buffer, chunks), link.state.faultCode)
    decreases |chunks|
  {
    hide Text.Drain, ReadText, LastFault;
    if chunks == [] {
      assert link.buffer + Flatten(chunks) == link.buffer;
      Text.DrainNothing(parse, link.buffer);
    } else {
      FirstAndLater(parse, link.buffer, chunks);
      FaultAfterOne(parse, limit, drive, g, link, chunks[0]);
      var next := ReadText(parse, limit, drive, g, link, chunks[0]);
      FaultAfterReads(parse, limit, drive, g, next, chunks[1..]);
      if Masked(parse, next.buffer, chunks[1..]) {
        MaskedMeans(parse, next.buffer, chunks[1..]);
      }
      LastOfAppend(Text.Drain(parse, link.buffer + chunks[0]).packets, Text.Drain(parse, next.buffer + Flatten(chunks[1..])).packets);
    }
  }

  lemma LastOfAppend(p: seq<Packet>, q: seq<Packet>)
    ensures q == [] ==> p + q == p
    ensures q != [] ==> p + q != [] && LastFault(p + q) == LastFault(q)
  {
  }

  lemma FaultAfterOne(parse: Text.LineParser, limit: nat, drive: Drive, g: Geometry, link: Link, bytes: seq<byte>)
    requires |link.buffer + bytes| <= limit
    ensures var d := Text.Drain(parse, link.buffer + bytes); var r := ReadText(parse, limit, drive, g, link, bytes);
      r.buffer == d.rest && r.state.faultCode == FaultOf(d, false, link.state.faultCode)
  {
    hide Text.Drain, ApplyAll;
    var d := Text.Drain(parse, link.buffer + bytes);
    LatestPacketWins(drive, g, link.state, d.packets);
    LatestFault(d.packets, link.state.faultCode);
  }

  /**
   * Reading a text in chunks leaves the same fault code as reading it whole if and only if no later packet masks
   * an error, or the last packet itself reports MALFORMED_PACKET.
   */
  lemma FaultCodeExactly(parse: Text.LineParser, limit: nat, drive: Drive, g: Geometry, link: Link, chunks: seq<seq<byte>>)
    requires Text.NEWLINE !in link.buffer && !Text.Overflows(parse, limit, link.buffer, chunks)
    requires |link.buffer + Flatten(chunks)| <= limit
    ensures ReadsText(parse, limit, drive, g, link, chunks).state.faultCode ==
            ReadText(parse, limit, drive, g, link, Flatten(chunks)).state.faultCode <==>
            || !Masked(parse, link.buffer, chunks)
            || LastReportsMalformed(Text.Drain(parse, link.buffer + Flatten(chunks)).packets)
  {
    hide Text.Drain, ReadText, ReadsText, Masked, LastFault;
    FaultAfterReads(parse, limit, drive, g, link, chunks);
    FaultAfterOne(parse, limit, drive, g, link, Flatten(chunks));
    if Masked(parse, link.buffer, chunks) {
      MaskedMeans(parse, link.buffer, chunks);
    }
  }

  /** The same for two ways of splitting a text, whether or not it would fit in one read. */
  lemma ChunkingsAgreeExactly(parse: Text.LineParser, limit: nat, drive: Drive, g: Geometry, link: Link,
                              a: seq<seq<byte>>, b: seq<seq<byte>>)
    requires Text.NEWLINE !in link.buffer && Flatten(a) == Flatten(b)
    requires !Text.Overflows(parse, limit, link.buffer, a) && !Text.Overflows(parse, limit, link.buffer, b)
    ensures ReadsText(parse, limit, drive, g, link, a).state.faultCode ==
            ReadsText(parse, limit, drive, g, link, b).state.faultCode <==>
            || (Masked(parse, link.buffer, a) <==> Masked(parse, link.buffer, b))
            || LastReportsMalformed(Text.Drain(parse, link.buffer + Flatten(a)).packets)
  {
    hide Text.Drain, ReadsText, Masked, LastFault;
    FaultAfterReads(parse, limit, drive, g, link, a);
    FaultAfterReads(parse, limit, drive, g, link, b);
    if Masked(parse, link.buffer, a) {
      MaskedMeans(parse, link.buffer, a);
    }
    if Masked(parse, link.buffer, b) {
      MaskedMeans(parse, link.buffer, b);
    }
  }

  // ---------------------------------------------------------------- a concrete case

  lemma DrainOneLine(parse: Text.LineParser, line: Text.Line)
    requires Text.NEWLINE !in line
    ensures Text.Drain(parse, [] + (line + [Text.NEWLINE])) ==
            Text.Drained(Text.LinePackets(parse, line), [], Text.LineErrors(parse, line))
  {
    Text.NewlineAfter(line, []);
    assert [] + (line + [Text.NEWLINE]) == line + [Text.NEWLINE] + [];
    Text.DrainNext(parse, line + [Text.NEWLINE] + []);
    Text.DrainNothing(parse, []);
  }

  lemma DrainTwoLines(parse: Text.LineParser, one: Text.Line, two: Text.Line)
    requires Text.NEWLINE !in one && Text.NEWLINE !in two
    ensures Text.Drain(parse, [] + ((one + [Text.NEWLINE]) + (two + [Text.NEWLINE]))).invalid ==
            Text.LineErrors(parse, one) + Text.LineErrors(parse, two)
  {
    hide Text.LineErrors, Text.LinePackets, Text.FindNewline, Text.Drain;
    var first, second := one + [Text.NEWLINE], two + [Text.NEWLINE];
    DrainOneLine(parse, one);
    DrainOneLine(parse, two);
    Text.DrainAppend(parse, [] + first, second);
    assert [] + (first + second) == ([] + first) + second;
  }

  /** A concrete case: a bad line and a heartbeat, read together or one by one. */
  lemma FaultCodeShowsChunking(parse: Text.LineParser, limit: nat, drive: Drive, g: Geometry, link: Link,
                               bad: Text.Line, good: Text.Line, heartbeat: HeartbeatPacket)
    requires link.buffer == [] && |bad| + |good| + 2 <= limit
    requires Text.NEWLINE !in bad && Text.NEWLINE !in good
    requires bad != [] && parse(bad) == None && parse(good) == Some(Heartbeat(heartbeat))
    ensures var first, second := bad + [Text.NEWLINE], good + [Text.NEWLINE];
      && ReadText(parse, limit, drive, g, link, first + second).state.faultCode == MalformedPacket
      && ReadsText(parse, limit, drive, g, link, [first, second]).state.faultCode == NoFault
  {
    var first, second := bad + [Text.NEWLINE], good + [Text.NEWLINE];
    DrainTwoLines(parse, bad, good);
    OneByOne(parse, limit, drive, g, link, bad, good, heartbeat);
    ReadTwice(parse, limit, drive, g, link, first, second);
  }

  lemma OneByOne(parse: Text.LineParser, limit: nat, drive: Drive, g: Geometry, link: Link,
                 bad: Text.Line, good: Text.Line, heartbeat: HeartbeatPacket)
    requires link.buffer == [] && |bad| + |good| + 2 <= limit
    requires Text.NEWLINE !in bad && Text.NEWLINE !in good
    requires parse(good) == Some(Heartbeat(heartbeat))
    ensures var one := ReadText(parse, limit, drive, g, link, bad + [Text.NEWLINE]);
      ReadText(parse, limit, drive, g, one, good + [Text.NEWLINE]).state.faultCode == NoFault
  {
    hide Text.Drain, ApplyAll;
    DrainOneLine(parse, bad);
    DrainOneLine(parse, good);
    var one := ReadText(parse, limit, drive, g, link, bad + [Text.NEWLINE]);
    ApplyHeartbeatOnly(drive, g, one.state, heartbeat);
  }

  lemma ReadTwice(parse: Text.LineParser, limit: nat, drive: Drive, g: Geometry, link: Link, a: seq<byte>, b: seq<byte>)
    ensures ReadsText(parse, limit, drive, g, link, [a, b]) ==
            ReadText(parse, limit, drive, g, ReadText(parse, limit, drive, g, link, a), b)
  {
    hide ReadText;
    var none: seq<seq<byte>> := [];
    assert [a, b][1..] == [b] && [b][1..] == none;
    var one := ReadText(parse, limit, drive, g, link, a);
    assert ReadsText(parse, limit, drive, g, one, [b]) == ReadText(parse, limit, drive, g, one, b);
  }

  lemma ApplyHeartbeatOnly(drive: Drive, g: Geometry, s: SystemState, heartbeat: HeartbeatPacket)
    ensures ApplyAll(drive, g, s, [Heartbeat(heartbeat)]).faultCode == NoFault
  {
    assert [Heartbeat(heartbeat)][1..] == [];
  }
}
