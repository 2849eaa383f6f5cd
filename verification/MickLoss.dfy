// When a frame behind line noise is lost: the exact condition on the chunks, and what a
// damaged trailer costs.
module MickLoss {
  import opened Common
  import opened ChassisPacket
  import opened MickStream
  import opened MickRuns

  // ---------------------------------------------------------------- bytes without magic

  lemma MagicFreePart(a: seq<byte>, b: seq<byte>, c: seq<byte>)
    requires MagicFree(a + b + c)
    ensures MagicFree(a + b) && MagicFree(b + c) && MagicFree(c)
  {
    var all := a + b + c;
    forall k: nat | k < |a + b|
      ensures !MagicAt(a + b, k)
    {
      assert MagicAt(a + b, k) ==> MagicAt(all, k);
    }
    forall k: nat | k < |b + c|
      ensures !MagicAt(b + c, k)
    {
      assert MagicAt(b + c, k) ==> MagicAt(all, |a| + k);
    }
    forall k: nat | k < |c|
      ensures !MagicAt(c, k)
    {
      assert MagicAt(c, k) ==> MagicAt(all, |a + b| + k);
    }
  }

  lemma MagicFreeDrain(b: seq<byte>)
    requires MagicFree(b)
    ensures Drain(b) == Drained([], if |b| < 7 then b else [], 0)
  {
  }

  /** Bytes without magic yield nothing, however they are cut and whether or not they overflow. */
  lemma {:induction false} NoMagicNoPackets(limit: nat, buffer: seq<byte>, chunks: seq<seq<byte>>)
    requires MagicFree(buffer + Flatten(chunks))
    ensures Receive(limit, buffer, chunks).packets == [] && Receive(limit, buffer, chunks).invalid == 0
    decreases |chunks|
  {
    if chunks != [] {
      hide Drain, MagicFree;
      var later := Flatten(chunks[1..]);
      assert buffer + Flatten(chunks) == buffer + chunks[0] + later;
      MagicFreePart(buffer, chunks[0], later);
      var joined := Joined(limit, buffer, chunks[0]);
      assert [] + later == later;
      EmptyIsMagicFree();
      MagicFreeDrain(joined);
      NoMagicNoPackets(limit, Drain(joined).rest, chunks[1..]);
    }
  }

  lemma EmptyIsMagicFree()
    ensures MagicFree([])
  {
  }

  // ---------------------------------------------------------------- one frame behind noise

  lemma {:induction false} KeepsNothing(held: nat, chunks: seq<seq<byte>>)
    ensures KeepsMagic([], held, chunks)
    decreases |chunks|
  {
    if chunks != [] {
      KeepsNothing(0, chunks[1..]);
    }
  }

  /** A cut between the magic bytes leaves nothing: the noise and the first magic byte are cleared. */
  lemma PartedMagic(s: Segment, b: seq<byte>, pending: seq<byte>)
    requires s.Valid() && b + pending == s.Bytes() && Splits([s], |b|)
    ensures Drain(b) == Drained([], [], 0) && pending == s.Frame()[1..]
  {
    hide FrameWith, MagicFree, OnePass, Drain, Splits, Segment.Frame;
    FrameLength(s);
    SplitsOne(s, |b|);
    var none: seq<byte> := [];
    assert s.Bytes() + none == s.Bytes();
    CutBefore(b, pending, s.Bytes(), none);
    CutSegment(s, b);
    DrainStops(b);
    CutPast(b, pending, s.noise, s.Frame());
  }

  lemma SplitsOne(s: Segment, n: nat)
    requires Splits([s], n) && n <= |s.Bytes()|
    ensures n == |s.noise| + 1 >= 7
  {
    hide Segment.Bytes;
  }

  /** Unless the chunks keep the frame's magic together, the receiver sees only the frame without its first byte. */
  lemma {:induction false} PartedFrom(limit: nat, s: Segment, buffer: seq<byte>, chunks: seq<seq<byte>>) returns (k: nat)
    requires s.Valid() && buffer + Flatten(chunks) == s.Bytes()
    requires !KeepsMagic([s], |buffer|, chunks) && !Receive(limit, buffer, chunks).overflowed
    ensures k <= |chunks| && Flatten(chunks[k..]) == s.Frame()[1..]
    ensures Receive(limit, buffer, chunks) == Receive(limit, [], chunks[k..])
    decreases |chunks|
  {
    FrameLength(s);
    hide Drain, Splits, Segment.Frame, Segment.Bytes, Segment.Valid, Left, Receive;
    var b, pending := buffer + chunks[0], Flatten(chunks[1..]);
    assert b + pending == buffer + Flatten(chunks);
    ReceiveFits(limit, buffer, chunks);
    if Splits([s], |b|) {
      PartedMagic(s, b, pending);
      k := 1;
    } else {
      var t := OneCut(limit, s, b, pending, chunks[1..]);
      k := PartedFrom(limit, t, Drain(b).rest, chunks[1..]);
      assert chunks[1..][k..] == chunks[k + 1..];
      k := k + 1;
    }
  }

  lemma ReceiveFits(limit: nat, buffer: seq<byte>, chunks: seq<seq<byte>>)
    requires chunks != [] && !Receive(limit, buffer, chunks).overflowed
    ensures var d := Drain(buffer + chunks[0]); var r := Receive(limit, d.rest, chunks[1..]);
      !r.overflowed && (d.packets == [] && d.invalid == 0 ==> Receive(limit, buffer, chunks) == r)
  {
    hide Drain;
  }

  lemma OneCut(limit: nat, s: Segment, b: seq<byte>, pending: seq<byte>, chunks: seq<seq<byte>>) returns (t: Segment)
    requires s.Valid() && b + pending == s.Bytes() && !Splits([s], |b|)
    requires !KeepsMagic(Left([s], |b|).segs, Left([s], |b|).held, chunks)
    ensures t.Valid() && t.Frame() == s.Frame() && Drain(b).packets == [] && Drain(b).invalid == 0
    ensures Drain(b).rest + pending == t.Bytes() && Left([s], |b|) == Rest([t], |Drain(b).rest|)
  {
    hide Drain, Splits, MagicFree, FrameWith, Receive, OnePass, Dropped, StreamBytes, AllValid;
    OneSegment(s);
    var none: seq<Segment> := [];
    assert [s][1..] == none;
    if |b| == |s.Bytes()| {
      KeepsNothing(0, chunks);
    }
    var k := Dropped(s, |b|);
    t := s.(noise := s.noise[k..]);
    assert Trimmed([s], k) == [t];
    CutPoint([s], b, pending);
    TrimmedNoise(s.noise, k);
    DropAppend(s.noise, s.Frame(), k);
    assert b[k..] + pending == (b + pending)[k..];
  }

  /**
   * Some chunk ends right behind the first magic byte while the six or more noise bytes before it are still
   * buffered.  `noise` is the number of noise bytes left, `held` how many bytes are buffered: a buffer of seven
   * or more noise bytes is cleared, a shorter one is kept.
   */
  predicate Parted(noise: nat, held: nat, chunks: seq<seq<byte>>)
    decreases |chunks|
  {
    chunks != [] &&
    var n := held + |chunks[0]|;
    if n > noise then n == noise + 1 && n >= 7
    else if n < 7 then Parted(noise, n, chunks[1..])
    else Parted(noise - n, 0, chunks[1..])
  }

  lemma {:induction false} ShortNoiseKeeps(s: Segment, held: nat, chunks: seq<seq<byte>>)
    requires |s.noise| < 6
    ensures KeepsMagic([s], held, chunks)
    decreases |chunks|
  {
    hide Segment.Bytes;
    if chunks != [] {
      var none: seq<Segment> := [];
      assert [s][1..] == none;
      var n := held + |chunks[0]|;
      if n >= |s.Bytes()| {
        assert !Splits(none, n - |s.Bytes()|) && !Splits([s], n);
        assert Left([s], n) == Left(none, n - |s.Bytes()|) == Rest([], 0);
        KeepsNothing(0, chunks[1..]);
      } else {
        var k := Dropped(s, n);
        assert Trimmed([s], k) == [s.(noise := s.noise[k..])];
        ShortNoiseKeeps(s.(noise := s.noise[k..]), n - k, chunks[1..]);
      }
    }
  }

  lemma LeftOfOne(s: Segment, n: nat)
    requires n < |s.Bytes()|
    ensures Left([s], n) == Rest([s.(noise := s.noise[Dropped(s, n)..])], n - Dropped(s, n))
    ensures Splits([s], n) <==> n == |s.noise| + 1 >= 7
  {
    hide Segment.Bytes, Dropped;
    var none: seq<Segment> := [];
    assert [s][1..] == none;
    assert Trimmed([s], Dropped(s, n)) == [s.(noise := s.noise[Dropped(s, n)..])];
  }

  lemma {:induction false} PartedIs(s: Segment, held: nat, chunks: seq<seq<byte>>)
    requires held + |Flatten(chunks)| == |s.Bytes()|
    ensures KeepsMagic([s], held, chunks) <==> !Parted(|s.noise|, held, chunks)
    decreases |chunks|
  {
    FrameLength(s);
    hide Splits, Left, Segment.Frame, Segment.Bytes;
    if chunks != [] {
      var n := held + |chunks[0]|;
      if n == |s.Bytes()| {
        WholeOne(s);
        KeepsNothing(0, chunks[1..]);
      } else {
        LeftOfOne(s, n);
        var t := s.(noise := s.noise[Dropped(s, n)..]);
        FrameLength(t);
        SameFrame(s, t);
        if n > |s.noise| {
          if !Splits([s], n) {
            ShortNoiseKeeps(t, n - Dropped(s, n), chunks[1..]);
          }
        } else {
          PartedIs(t, n - Dropped(s, n), chunks[1..]);
        }
      }
    }
  }

  lemma SameFrame(s: Segment, t: Segment)
    requires t == s.(noise := t.noise)
    ensures t.Frame() == s.Frame()
  {
  }

  lemma WholeOne(s: Segment)
    ensures !Splits([s], |s.Bytes()|) && Left([s], |s.Bytes()|) == Rest([], 0)
  {
    FrameLength(s);
    hide Segment.Bytes;
    var none: seq<Segment> := [];
    assert [s][1..] == none;
  }

  /**
   * Noise, then one decodable frame with no other magic inside it, cut into any chunks that never overflow:
   * the frame is lost if and only if the chunks part its magic bytes behind six or more buffered noise bytes.
   */
  lemma ChunksLoseFrameExactly(limit: nat, noise: seq<byte>, f: MickFrame, packet: Packet, chunks: seq<seq<byte>>)
    requires MagicFree(noise) && |f.payload| <= 253 && DecodeMickBinaryPacket(f) == Some(packet)
    requires MagicFree(EncodedFrame(f.kind, f.payload)[1..])
    requires Flatten(chunks) == noise + EncodedFrame(f.kind, f.payload) && !Receive(limit, [], chunks).overflowed
    ensures Receive(limit, [], chunks).packets == (if Parted(|noise|, 0, chunks) then [] else [packet])
  {
    hide MagicFree, Receive, KeepsMagic, FrameWith, FrameChecksum, DecodeMickBinaryPacket, Decoded, Parted;
    var s := Clean(f).(noise := noise);
    assert s.Frame() == EncodedFrame(f.kind, f.payload);
    PartedIs(s, 0, chunks);
    if KeepsMagic([s], 0, chunks) {
      OneSegment(s);
      SegmentsDelivered(limit, [s], chunks);
      DecodedIs(f, packet);
    } else {
      assert [] + Flatten(chunks) == s.Bytes();
      var k := PartedFrom(limit, s, [], chunks);
      FrameLength(s);
      assert [] + Flatten(chunks[k..]) == s.Frame()[1..];
      NoMagicNoPackets(limit, [], chunks[k..]);
    }
  }

  lemma OneSegment(s: Segment)
    ensures StreamBytes([s]) == s.Bytes() && Delivered([s]) == s.Delivers() && AllValid([s]) == s.Valid()
  {
    var none: seq<Segment> := [];
    assert [s][1..] == none;
  }

  lemma DecodedIs(f: MickFrame, packet: Packet)
    requires DecodeMickBinaryPacket(f) == Some(packet)
    ensures Decoded(f) == [packet]
  {
  }

  /**
   * With any frame, one holding further magic included: when the magic is parted, what comes out is what the
   * remaining chunks, which carry the frame without its first byte, yield on an empty buffer.
   */
  lemma PartedFrameLeavesItsRest(limit: nat, noise: seq<byte>, f: MickFrame, chunks: seq<seq<byte>>) returns (k: nat)
    requires MagicFree(noise) && |f.payload| <= 253 && Parted(|noise|, 0, chunks)
    requires Flatten(chunks) == noise + EncodedFrame(f.kind, f.payload) && !Receive(limit, [], chunks).overflowed
    ensures k <= |chunks| && Flatten(chunks[k..]) == EncodedFrame(f.kind, f.payload)[1..]
    ensures Receive(limit, [], chunks) == Receive(limit, [], chunks[k..])
  {
    hide MagicFree, Receive, KeepsMagic, FrameWith, FrameChecksum, Parted;
    var s := Clean(f).(noise := noise);
    assert s.Frame() == EncodedFrame(f.kind, f.payload);
    PartedIs(s, 0, chunks);
    assert [] + Flatten(chunks) == s.Bytes();
    k := PartedFrom(limit, s, [], chunks);
  }

  // ---------------------------------------------------------------- a damaged trailer

  lemma AfterAfter(p: seq<Packet>, m: nat, q: seq<Packet>, n: nat, d: Drained)
    ensures After(p, m, After(q, n, d)) == After(p + q, m + n, d)
  {
    assert p + (q + d.packets) == (p + q) + d.packets;
  }

  lemma {:induction false} DrainPastSegments(segs: seq<Segment>, tail: seq<byte>)
    requires AllValid(segs)
    ensures Drain(StreamBytes(segs) + tail) == After(Delivered(segs), Rejected(segs), Drain(tail))
  {
    hide Drain, OnePass, Segment.Bytes, Segment.Delivers, Segment.Intact, Segment.Valid;
    if segs == [] {
      assert StreamBytes(segs) + tail == tail;
    } else {
      var later := StreamBytes(segs[1..]) + tail;
      assert StreamBytes(segs) + tail == segs[0].Bytes() + later;
      WholeSegment(segs[0], later);
      DrainContinues(segs[0].Bytes() + later);
      DrainPastSegments(segs[1..], tail);
      hide After, StreamBytes;
      AfterAfter(segs[0].Delivers(), if segs[0].Intact() then 0 else 1, Delivered(segs[1..]), Rejected(segs[1..]), Drain(tail));
    }
  }

  lemma {:induction false} WholeStreamParts(segs: seq<Segment>)
    ensures !Splits(segs, |StreamBytes(segs)|)
  {
    if segs != [] {
      FrameLength(segs[0]);
      hide Segment.Bytes;
      WholeStreamParts(segs[1..]);
    }
  }

  /** The bytes of a frame with trailer byte `j` changed to `v`. */
  function Damaged(f: MickFrame, j: nat, v: byte): (d: seq<byte>)
    requires 5 <= j - |f.payload| <= 6
    ensures |d| == |f.payload| + 7
  {
    EncodedFrame(f.kind, f.payload)[j := v]
  }

  /** A frame with one trailer byte changed costs one skipped byte and one error. */
  lemma DamagedTrailer(f: MickFrame, j: nat, v: byte, tail: seq<byte>)
    requires |f.payload| <= 253 && 5 <= j - |f.payload| <= 6 && v != EncodedFrame(f.kind, f.payload)[j]
    ensures OnePass(Damaged(f, j, v) + tail) == Continue([], 1, Damaged(f, j, v)[1..] + tail)
  {
    hide FrameChecksum, Checksum;
    var d := Damaged(f, j, v);
    var all := d + tail;
    assert MagicAt(all, 0) && all[2] == |f.payload| + 2 && TotalLength(all) == |d|;
    assert Inspect(all) == BadTrailer;
    assert FindMagic(all) == Some(0);
    assert all[0..] == all && all[1..] == d[1..] + tail;
  }

  /**
   * Change one trailer byte of one frame between others: as long as no magic appears in what follows its first
   * byte up to the next frame, exactly that frame is lost and one error is counted.
   */
  lemma DamagedTrailerLosesOneFrame(before: seq<Segment>, f: MickFrame, j: nat, v: byte, next: Segment, later: seq<Segment>)
    requires AllValid(before) && next.Valid() && AllValid(later) && |f.payload| <= 253
    requires 5 <= j - |f.payload| <= 6 && v != EncodedFrame(f.kind, f.payload)[j]
    requires MagicFree(Damaged(f, j, v)[1..] + next.noise)
    ensures Drain(StreamBytes(before) + (Damaged(f, j, v) + StreamBytes([next] + later))) ==
            Drained(Delivered(before) + Delivered([next] + later), [], Rejected(before) + 1 + Rejected([next] + later))
  {
    hide Drain, OnePass, MagicFree, Damaged, EncodedFrame, StreamBytes, Delivered, Rejected, AllValid, After;
    var d, after := Damaged(f, j, v), [next] + later;
    var rest := d[1..] + StreamBytes(after);
    DrainPastSegments(before, d + StreamBytes(after));
    DamagedTrailer(f, j, v, StreamBytes(after));
    DrainContinues(d + StreamBytes(after));
    DrainNoisy(d[1..], next, later);
    AfterAfter(Delivered(before), Rejected(before), [], 1, Drain(rest));
    AfterIs(Delivered(before), Rejected(before) + 1, Delivered(after), Rejected(after));
  }

  lemma AfterIs(p: seq<Packet>, m: nat, q: seq<Packet>, n: nat)
    ensures After(p + [], m, Drained(q, [], n)) == Drained(p + q, [], m + n)
  {
  }

  lemma DrainNoisy(more: seq<byte>, s: Segment, rest: seq<Segment>)
    requires s.Valid() && AllValid(rest) && MagicFree(more + s.noise)
    ensures Drain(more + StreamBytes([s] + rest)) == Drained(Delivered([s] + rest), [], Rejected([s] + rest))
  {
    hide Drain, MagicFree, StreamBytes, Delivered, Rejected, AllValid, Carries, Splits, Left;
    WithNoise(more, s, rest);
    var noisy := [s.(noise := more + s.noise)] + rest;
    var all := StreamBytes(noisy);
    WholeStreamParts(noisy);
    assert all + [] == all;
    DrainSegments(noisy, all, []);
    AllCarried(noisy, Drain(all), Left(noisy, |all|));
  }

  lemma AllCarried(segs: seq<Segment>, d: Drained, left: Rest)
    requires Carries(segs, d, [], left)
    ensures d == Drained(Delivered(segs), [], Rejected(segs))
  {
  }

  lemma WithNoise(more: seq<byte>, s: Segment, rest: seq<Segment>)
    requires s.Valid() && AllValid(rest) && MagicFree(more + s.noise)
    ensures var t := s.(noise := more + s.noise);
      && AllValid([t] + rest) && StreamBytes([t] + rest) == more + StreamBytes([s] + rest)
      && Delivered([t] + rest) == Delivered([s] + rest) && Rejected([t] + rest) == Rejected([s] + rest)
  {
    hide Segment.Bytes, Segment.Delivers, Segment.Intact, Segment.Valid, StreamBytes, Delivered, Rejected, MagicFree, AllValid;
    var t := s.(noise := more + s.noise);
    OneWithNoise(more, s);
    Cons(s, rest);
    Cons(t, rest);
    Regroup(more, s.Bytes(), StreamBytes(rest));
  }

  lemma Regroup(a: seq<byte>, b: seq<byte>, c: seq<byte>)
    ensures (a + b) + c == a + (b + c)
  {
  }

  lemma OneWithNoise(more: seq<byte>, s: Segment)
    requires s.Valid() && MagicFree(more + s.noise)
    ensures var t := s.(noise := more + s.noise);
      t.Valid() && t.Bytes() == more + s.Bytes() && t.Delivers() == s.Delivers() && t.Intact() == s.Intact()
  {
    SameFrame(s, s.(noise := more + s.noise));
    hide Segment.Frame, MagicFree, FrameChecksum, Decoded;
  }

  // ---------------------------------------------------------------- concrete streams

  const STATUS := MickFrame(0xa2, [0])
  const STATUS_BYTES: seq<byte> := [0xae, 0xea, 0x03, 0xa2, 0x00, 0xa5, 0xef, 0xfe]

  lemma StatusFrame()
    ensures EncodedFrame(STATUS.kind, STATUS.payload) == STATUS_BYTES && MagicFree(STATUS_BYTES[1..])
    ensures DecodeMickBinaryPacket(STATUS).Some?
  {
    assert [3 as byte, 0xa2] + [0 as byte] == [3, 0xa2, 0];
    var all, two, one: seq<byte> := [3, 0xa2, 0], [3, 0xa2], [3];
    assert all[..2] == two && two[..1] == one && one[..0] == [];
    assert ByteSum(one) == 3 && ByteSum(two) == 165 && ByteSum(all) == 165;
  }

  lemma SomeChunks(a: seq<byte>, b: seq<byte>, c: seq<byte>)
    requires |a| < 100 && |b| < 100 && |c| < 100
    ensures Flatten([a, b]) == a + b && !Receive(4096, [], [a, b]).overflowed
    ensures Flatten([a, b, c]) == a + b + c && !Receive(4096, [], [a, b, c]).overflowed
  {
    hide Receive;
    var none: seq<seq<byte>> := [];
    assert [a, b][1..] == [b] && [b][1..] == none && [c][1..] == none;
    assert [a, b, c][1..] == [b, c] && [b, c][1..] == [c];
    assert Flatten([b]) == b && Flatten([c]) == c && Flatten([b, c]) == b + c;
    assert Short(4096, none) && Short(4096, [b]) && Short(4096, [c]);
    assert Short(4096, [b, c]) && Short(4096, [a, b]);
    ShortChunksNeverOverflow(4096, [], [a, b]);
    ShortChunksNeverOverflow(4096, [], [a, b, c]);
  }

  lemma Zeros(n: nat)
    ensures MagicFree(seq(n, _ => 0))
  {
  }

  /** Six zero bytes and the first magic byte, then the rest of a status frame: the frame is lost. */
  lemma LostFrame()
    ensures Receive(4096, [], [seq(6, _ => 0) + [0xae], STATUS_BYTES[1..]]).packets == []
  {
    StatusFrame();
    var noise: seq<byte> := seq(6, _ => 0);
    var a, b: seq<byte> := noise + [0xae], STATUS_BYTES[1..];
    Zeros(6);
    SomeChunks(a, b, []);
    assert a + b == noise + STATUS_BYTES;
    hide MagicFree, Receive, DecodeMickBinaryPacket, EncodedFrame, Flatten;
    ChunksLoseFrameExactly(4096, noise, STATUS, DecodeMickBinaryPacket(STATUS).value, [a, b]);
  }

  /** Ten zero bytes cut after the eighth: those eight are gone when the magic is parted, and the frame gets through. */
  lemma KeptFrame()
    ensures Receive(4096, [], [seq(8, _ => 0), [0, 0, 0xae], STATUS_BYTES[1..]]).packets ==
            [DecodeMickBinaryPacket(STATUS).value]
  {
    StatusFrame();
    var noise: seq<byte> := seq(10, _ => 0);
    var a, b, c: seq<byte> := seq(8, _ => 0), [0, 0, 0xae], STATUS_BYTES[1..];
    Zeros(10);
    SomeChunks(a, b, c);
    assert a + b + c == noise + STATUS_BYTES;
    hide MagicFree, Receive, DecodeMickBinaryPacket, EncodedFrame, Flatten;
    assert [a, b, c][1..] == [b, c];
    assert !Parted(2, 0, [b, c]);
    ChunksLoseFrameExactly(4096, noise, STATUS, DecodeMickBinaryPacket(STATUS).value, [a, b, c]);
  }
}
