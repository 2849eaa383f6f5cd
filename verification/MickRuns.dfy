// Whole runs of the binary receiver: bytes arrive in arbitrary chunks, each appended
// and drained, and the stream is a sequence of frames that may be preceded by
// line noise or carry a wrong checksum byte.
module MickRuns {
  import opened Common
  import opened ChassisPacket
  import opened MickStream

  /** Noise, then a frame whose checksum byte need not be the right one. */
  datatype Segment = Segment(noise: seq<byte>, kind: byte, payload: seq<byte>, checksum: byte) {
    predicate Valid() {
      MagicFree(noise) && |payload| <= 253
    }

    function Frame(): seq<byte> {
      FrameWith(kind, payload, checksum)
    }

    function Bytes(): seq<byte> {
      noise + Frame()
    }

    predicate Intact() {
      checksum == FrameChecksum(kind, payload)
    }

    function Delivers(): seq<Packet> {
      if Intact() then Decoded(MickFrame(kind, payload)) else []
    }
  }

  predicate AllValid(segs: seq<Segment>) {
    segs == [] || (segs[0].Valid() && AllValid(segs[1..]))
  }

  function StreamBytes(segs: seq<Segment>): seq<byte> {
    if segs == [] then [] else segs[0].Bytes() + StreamBytes(segs[1..])
  }

  /** The packets of the intact, decodable frames, in order. */
  function Delivered(segs: seq<Segment>): seq<Packet> {
    if segs == [] then [] else segs[0].Delivers() + Delivered(segs[1..])
  }

  /** The number of frames with a wrong checksum byte. */
  function Rejected(segs: seq<Segment>): nat {
    if segs == [] then 0 else (if segs[0].Intact() then 0 else 1) + Rejected(segs[1..])
  }

  /** A drain of the first `n` bytes ends between the two magic bytes of a frame, behind six or more noise bytes. */
  predicate Splits(segs: seq<Segment>, n: nat) {
    segs != [] &&
    if n > |segs[0].Bytes()| then Splits(segs[1..], n - |segs[0].Bytes()|)
    else n == |segs[0].noise| + 1 && |segs[0].noise| >= 6
  }

  /** The noise a drain drops from the `n` bytes at hand of a cut segment: none while they are too few for a frame. */
  function Dropped(s: Segment, n: nat): (k: nat)
    ensures k <= n && k <= |s.noise|
  {
    if n < 7 then 0 else if n <= |s.noise| then n else |s.noise|
  }

  function Trimmed(segs: seq<Segment>, k: nat): seq<Segment>
    requires segs != [] && k <= |segs[0].noise|
  {
    [segs[0].(noise := segs[0].noise[k..])] + segs[1..]
  }

  /** What remains to be received, and how many bytes of it are held in the buffer already. */
  datatype Rest = Rest(segs: seq<Segment>, held: nat)

  /** What a drain of the first `n` bytes leaves, if they do not part a frame's magic. */
  function Left(segs: seq<Segment>, n: nat): Rest {
    if segs == [] then Rest([], 0)
    else if n >= |segs[0].Bytes()| then Left(segs[1..], n - |segs[0].Bytes()|)
    else Rest(Trimmed(segs, Dropped(segs[0], n)), n - Dropped(segs[0], n))
  }

  /** With `held` bytes buffered, no chunk ends between magic bytes whose frame has six or more noise bytes left before it. */
  predicate KeepsMagic(segs: seq<Segment>, held: nat, chunks: seq<seq<byte>>)
    decreases |chunks|
  {
    chunks == [] ||
    var n := held + |chunks[0]|;
    !Splits(segs, n) && KeepsMagic(Left(segs, n).segs, Left(segs, n).held, chunks[1..])
  }

  // ---------------------------------------------------------------- one segment

  lemma MagicAfterNoise(noise: seq<byte>, g: seq<byte>)
    requires MagicFree(noise) && MagicAt(g, 0)
    ensures FindMagic(noise + g) == Some(|noise|) && (noise + g)[|noise|..] == g
  {
    var b := noise + g;
    assert MagicAt(b, |noise|);
    forall k: nat | k < |noise|
      ensures !MagicAt(b, k)
    {
      assert MagicAt(b, k) && k + 1 < |noise| ==> MagicAt(noise, k);
    }
  }

  lemma FrameLength(s: Segment)
    ensures |s.Frame()| == |s.payload| + 7 && |s.Bytes()| == |s.noise| + |s.Frame()|
  {
  }

  lemma WholeFrame(s: Segment, tail: seq<byte>)
    requires s.Valid()
    ensures var f := s.Frame() + tail;
      && MagicAt(f, 0) && |f| >= 7 && f[2] >= 2
      && TotalLength(f) == |s.Frame()|
      && f[TotalLength(f)..] == tail
      && f[3] == s.kind && f[4..TotalLength(f) - 3] == s.payload
      && Inspect(f) == if s.Intact() then Accepted else BadChecksum
  {
    var f := s.Frame() + tail;
    assert f[2..TotalLength(f) - 3] == [(|s.payload| + 2) % 256, s.kind] + s.payload;
  }

  lemma PassAtFrame(s: Segment, tail: seq<byte>)
    requires s.Valid()
    ensures var f := s.Frame() + tail;
      MagicAt(f, 0) && |f| >= 7 && PassAtMagic(f) == Continue(s.Delivers(), if s.Intact() then 0 else 1, tail)
  {
    WholeFrame(s, tail);
    hide Inspect, Decoded, Segment.Frame, Segment.Intact;
  }

  lemma WholeSegment(s: Segment, tail: seq<byte>)
    requires s.Valid()
    ensures OnePass(s.Bytes() + tail) == Continue(s.Delivers(), if s.Intact() then 0 else 1, tail)
  {
    hide OnePass, PassAtMagic, FindMagic, MagicFree, Segment.Frame, Segment.Intact, Segment.Delivers;
    var f := s.Frame() + tail;
    PassAtFrame(s, tail);
    assert s.Bytes() + tail == s.noise + f;
    MagicAfterNoise(s.noise, f);
    OnePassIs(s.noise + f);
  }

  /** Cut inside a segment, the receiver keeps the cut frame, and noise only while it is short. */
  lemma CutSegment(s: Segment, b: seq<byte>)
    requires s.Valid() && b < s.Bytes()
    ensures OnePass(b) ==
            Stop(if |b| < 7 then b
                 else if |b| <= |s.noise| + 1 then []
                 else b[|s.noise|..])
  {
    if |b| >= 7 {
      if |b| <= |s.noise| + 1 {
        forall k: nat | k < |b|
          ensures !MagicAt(b, k)
        {
          assert MagicAt(b, k) && k + 1 < |s.noise| ==> MagicAt(s.noise, k);
        }
      } else {
        CutFrame(s, b[|s.noise|..]);
        assert b == s.noise + b[|s.noise|..];
        MagicAfterNoise(s.noise, b[|s.noise|..]);
      }
    }
  }

  lemma CutFrame(s: Segment, g: seq<byte>)
    requires s.Valid() && g < s.Frame() && |g| >= 2
    ensures MagicAt(g, 0) && PassAtMagic(g) == Stop(g)
  {
    assert g[0] == s.Frame()[0] && g[1] == s.Frame()[1];
    if |g| >= 7 {
      assert g[2] == s.Frame()[2];
    }
  }

  // ---------------------------------------------------------------- one drain

  /** `left` is what a drain leaves of `segs`: packets, errors and bytes are all accounted for. */
  ghost predicate Carries(segs: seq<Segment>, d: Drained, pending: seq<byte>, left: Rest) {
    && AllValid(left.segs)
    && d.packets + Delivered(left.segs) == Delivered(segs)
    && d.invalid + Rejected(left.segs) == Rejected(segs)
    && d.rest + pending == StreamBytes(left.segs)
    && (pending == [] ==> left.segs == [])
    && |d.rest| == left.held
  }

  lemma {:induction false} DrainSegments(segs: seq<Segment>, b: seq<byte>, pending: seq<byte>)
    requires AllValid(segs) && b + pending == StreamBytes(segs) && !Splits(segs, |b|)
    ensures Carries(segs, Drain(b), pending, Left(segs, |b|))
    decreases |segs|
  {
    hide Carries, Drain, OnePass, Segment.Bytes, Segment.Delivers, Segment.Intact, Segment.Valid;
    if segs == [] {
      DrainNone(b, pending);
    } else if |b| < |segs[0].Bytes()| {
      DrainCut(segs, b, pending);
    } else {
      var s := segs[0];
      var tail := b[|s.Bytes()|..];
      CutPast(b, pending, s.Bytes(), StreamBytes(segs[1..]));
      FrameLength(s);
      WholeSegment(s, tail);
      DrainSegments(segs[1..], tail, pending);
      CarriesCons(segs, b, tail, pending, Left(segs[1..], |tail|));
    }
  }

  lemma DrainNone(b: seq<byte>, pending: seq<byte>)
    requires b + pending == []
    ensures Carries([], Drain(b), pending, Left([], |b|))
  {
    assert b == [] && pending == [];
  }

  lemma CarriesCons(segs: seq<Segment>, b: seq<byte>, tail: seq<byte>, pending: seq<byte>, left: Rest)
    requires segs != [] && b == segs[0].Bytes() + tail
    requires OnePass(b) == Continue(segs[0].Delivers(), if segs[0].Intact() then 0 else 1, tail)
    requires Carries(segs[1..], Drain(tail), pending, left)
    ensures Carries(segs, Drain(b), pending, left)
  {
    hide OnePass, AllValid, StreamBytes, Drain;
    hide Segment.Bytes, Segment.Delivers, Segment.Intact;
    DrainContinues(b);
    assert Drain(b).packets + Delivered(left.segs) == segs[0].Delivers() + (Drain(tail).packets + Delivered(left.segs));
  }

  lemma DrainCut(segs: seq<Segment>, b: seq<byte>, pending: seq<byte>)
    requires AllValid(segs) && b + pending == StreamBytes(segs) && !Splits(segs, |b|)
    requires segs != [] && |b| < |segs[0].Bytes()|
    ensures Carries(segs, Drain(b), pending, Left(segs, |b|))
  {
    hide AllValid, StreamBytes, Dropped, Drain, Splits, Trimmed, Carries, Segment.Bytes;
    CutPoint(segs, b, pending);
    CarriesCut(segs, b, pending, Dropped(segs[0], |b|));
  }

  lemma CarriesCut(segs: seq<Segment>, b: seq<byte>, pending: seq<byte>, k: nat)
    requires AllValid(segs) && segs != [] && b + pending == StreamBytes(segs) && pending != []
    requires k <= |b| && k <= |segs[0].noise|
    ensures Carries(segs, Drained([], b[k..], 0), pending, Rest(Trimmed(segs, k), |b| - k))
  {
    hide AllValid, StreamBytes, Delivered, Rejected, Trimmed;
    TrimmedSegments(segs, k);
    DropAppend(b, pending, k);
  }

  lemma CutPoint(segs: seq<Segment>, b: seq<byte>, pending: seq<byte>)
    requires AllValid(segs) && b + pending == StreamBytes(segs) && !Splits(segs, |b|)
    requires segs != [] && |b| < |segs[0].Bytes()|
    ensures pending != [] && Drain(b) == Drained([], b[Dropped(segs[0], |b|)..], 0)
  {
    hide Inspect, FindMagic, OnePass, Drain, Segment.Frame, Segment.Bytes, MagicFree;
    var s := segs[0];
    CutBefore(b, pending, s.Bytes(), StreamBytes(segs[1..]));
    CutSegment(s, b);
    DrainStops(b);
  }

  lemma CutBefore(a: seq<byte>, b: seq<byte>, p: seq<byte>, q: seq<byte>)
    requires a + b == p + q && |a| < |p|
    ensures a < p && b != []
  {
    assert a == (a + b)[..|a|] == (p + q)[..|a|] == p[..|a|];
  }

  lemma DrainStops(b: seq<byte>)
    requires OnePass(b).Stop?
    ensures Drain(b) == Drained([], OnePass(b).rest, 0)
  {
    hide OnePass;
  }

  lemma TrimmedSegments(segs: seq<Segment>, k: nat)
    requires AllValid(segs) && segs != [] && k <= |segs[0].noise|
    ensures AllValid(Trimmed(segs, k))
    ensures Delivered(Trimmed(segs, k)) == Delivered(segs) && Rejected(Trimmed(segs, k)) == Rejected(segs)
    ensures StreamBytes(Trimmed(segs, k)) == StreamBytes(segs)[k..]
  {
    hide MagicFree, FrameWith, FrameChecksum, Decoded;
    assert Trimmed(segs, k)[1..] == segs[1..];
    TrimmedBytes(segs, k);
    TrimmedNoise(segs[0].noise, k);
  }

  lemma TrimmedBytes(segs: seq<Segment>, k: nat)
    requires segs != [] && k <= |segs[0].noise|
    ensures StreamBytes(Trimmed(segs, k)) == StreamBytes(segs)[k..]
  {
    hide FrameWith;
    var s := segs[0];
    assert Trimmed(segs, k)[1..] == segs[1..];
    DropAppend(s.noise, s.Frame(), k);
    DropAppend(s.Bytes(), StreamBytes(segs[1..]), k);
  }

  lemma TrimmedNoise(noise: seq<byte>, k: nat)
    requires MagicFree(noise) && k <= |noise|
    ensures MagicFree(noise[k..])
  {
    forall j: nat | j < |noise[k..]|
      ensures !MagicAt(noise[k..], j)
    {
      assert MagicAt(noise[k..], j) ==> MagicAt(noise, j + k);
    }
  }

  // ---------------------------------------------------------------- chunked runs

  datatype Received = Received(packets: seq<Packet>, buffer: seq<byte>, invalid: nat, overflowed: bool)

  function Then(packets: seq<Packet>, invalid: nat, overflowed: bool, r: Received): Received {
    Received(packets + r.packets, r.buffer, invalid + r.invalid, overflowed || r.overflowed)
  }

  /** The buffer after Append, which clears it when it grows beyond the limit. */
  function Joined(limit: nat, buffer: seq<byte>, chunk: seq<byte>): seq<byte> {
    if |buffer + chunk| > limit then [] else buffer + chunk
  }

  /** Append and drain each chunk in turn, starting with `buffer` kept from before. */
  function Receive(limit: nat, buffer: seq<byte>, chunks: seq<seq<byte>>): Received
    decreases |chunks|
  {
    if chunks == [] then Received([], buffer, 0, false)
    else
      var d := Drain(Joined(limit, buffer, chunks[0]));
      Then(d.packets, d.invalid, |buffer + chunks[0]| > limit, Receive(limit, d.rest, chunks[1..]))
  }

  method ReceiveAll(stream: MickBinaryPacketStream, chunks: seq<seq<byte>>) returns (packets: seq<Packet>)
    modifies stream
    ensures var r := Receive(stream.maxBufferBytes, old(stream.buffer), chunks);
      && packets == r.packets && stream.buffer == r.buffer
      && stream.invalidFrameCount == old(stream.invalidFrameCount) + r.invalid
      && stream.overflowed == (old(stream.overflowed) || r.overflowed)
  {
    hide Drain, Receive;
    packets := [];
    ghost var limit, start := stream.maxBufferBytes, stream.buffer;
    ghost var invalid: nat, over: bool := 0, false;
    for i := 0 to |chunks|
      invariant stream.invalidFrameCount == old(stream.invalidFrameCount) + invalid
      invariant stream.overflowed == (old(stream.overflowed) || over)
      invariant Receive(limit, start, chunks) ==
                Then(packets, invalid, over, Receive(limit, stream.buffer, chunks[i..]))
    {
      ghost var before := stream.buffer;
      stream.Append(chunks[i]);
      ghost var d := Drain(stream.buffer);
      var more := stream.DrainPackets();
      ReceiveNext(limit, before, chunks, i, packets, invalid, over);
      assert d == Drain(Joined(limit, before, chunks[i]));
      packets := packets + more;
      invalid, over := invalid + d.invalid, over || |before + chunks[i]| > limit;
    }
    assert chunks[|chunks|..] == [];
    ReceiveNothing(limit, stream.buffer);
  }

  lemma ReceiveNothing(limit: nat, buffer: seq<byte>)
    ensures Receive(limit, buffer, []) == Received([], buffer, 0, false)
  {
  }

  lemma ReceiveNext(limit: nat, buffer: seq<byte>, chunks: seq<seq<byte>>, i: nat,
                    packets: seq<Packet>, invalid: nat, over: bool)
    requires i < |chunks|
    ensures var d := Drain(Joined(limit, buffer, chunks[i]));
      Then(packets, invalid, over, Receive(limit, buffer, chunks[i..])) ==
      Then(packets + d.packets, invalid + d.invalid, over || |buffer + chunks[i]| > limit,
           Receive(limit, d.rest, chunks[i + 1..]))
  {
    hide Drain;
    assert chunks[i..][1..] == chunks[i + 1..];
  }

  lemma {:induction false} SegmentsDeliveredFrom(limit: nat, segs: seq<Segment>, buffer: seq<byte>, chunks: seq<seq<byte>>)
    requires AllValid(segs) && buffer + Flatten(chunks) == StreamBytes(segs)
    requires KeepsMagic(segs, |buffer|, chunks) && !Receive(limit, buffer, chunks).overflowed
    requires chunks == [] ==> segs == []
    ensures Receive(limit, buffer, chunks) == Received(Delivered(segs), [], Rejected(segs), false)
    decreases |chunks|
  {
    hide Drain, Splits, AllValid, Left, Delivered, Rejected, StreamBytes;
    if chunks != [] {
      var b := buffer + chunks[0];
      var pending := Flatten(chunks[1..]);
      assert b + pending == buffer + Flatten(chunks);
      DrainSegments(segs, b, pending);
      SegmentsDeliveredFrom(limit, Left(segs, |b|).segs, Drain(b).rest, chunks[1..]);
    } else {
      assert buffer + Flatten(chunks) == buffer;
      NothingToDeliver();
    }
  }

  lemma NothingToDeliver()
    ensures Delivered([]) == [] && Rejected([]) == 0 && StreamBytes([]) == []
  {
  }

  /**
   * Frames preceded by magic-free noise, some with a wrong checksum byte, cut into chunks in any way
   * that never overflows and keeps together the magic bytes after six or more bytes of noise:
   * exactly the intact frames are delivered, in order; each wrong checksum counts once; nothing is left.
   */
  lemma SegmentsDelivered(limit: nat, segs: seq<Segment>, chunks: seq<seq<byte>>)
    requires AllValid(segs) && Flatten(chunks) == StreamBytes(segs)
    requires KeepsMagic(segs, 0, chunks) && !Receive(limit, [], chunks).overflowed
    ensures Receive(limit, [], chunks) == Received(Delivered(segs), [], Rejected(segs), false)
  {
    assert [] + Flatten(chunks) == Flatten(chunks);
    SegmentsDeliveredFrom(limit, segs, [], chunks);
  }

  // ---------------------------------------------------------------- frames without noise

  function EncodedStream(frames: seq<MickFrame>): seq<byte> {
    if frames == [] then [] else EncodedFrame(frames[0].kind, frames[0].payload) + EncodedStream(frames[1..])
  }

  function DecodeAll(frames: seq<MickFrame>): seq<Packet> {
    if frames == [] then [] else Decoded(frames[0]) + DecodeAll(frames[1..])
  }

  predicate Encodable(frames: seq<MickFrame>) {
    frames == [] || (|frames[0].payload| <= 253 && Encodable(frames[1..]))
  }

  function Clean(frame: MickFrame): Segment {
    Segment([], frame.kind, frame.payload, FrameChecksum(frame.kind, frame.payload))
  }

  /** `frames` as noiseless segments in front of `others`. */
  function Before(frames: seq<MickFrame>, others: seq<Segment>): seq<Segment> {
    if frames == [] then others else [Clean(frames[0])] + Before(frames[1..], others)
  }

  predicate Noiseless(segs: seq<Segment>) {
    segs == [] || (segs[0].noise == [] && Noiseless(segs[1..]))
  }

  lemma Cons(s: Segment, tail: seq<Segment>)
    requires s.Valid() && AllValid(tail)
    ensures AllValid([s] + tail)
    ensures StreamBytes([s] + tail) == s.Bytes() + StreamBytes(tail)
    ensures Delivered([s] + tail) == s.Delivers() + Delivered(tail)
    ensures Rejected([s] + tail) == (if s.Intact() then 0 else 1) + Rejected(tail)
  {
    assert ([s] + tail)[1..] == tail;
  }

  lemma {:induction false} BeforeMeaning(frames: seq<MickFrame>, others: seq<Segment>)
    requires Encodable(frames) && AllValid(others) && Noiseless(others)
    ensures AllValid(Before(frames, others)) && Noiseless(Before(frames, others))
    ensures StreamBytes(Before(frames, others)) == EncodedStream(frames) + StreamBytes(others)
    ensures Delivered(Before(frames, others)) == DecodeAll(frames) + Delivered(others)
    ensures Rejected(Before(frames, others)) == Rejected(others)
  {
    hide FrameWith, FrameChecksum, Decoded, Noiseless, AllValid, StreamBytes, Delivered, Rejected;
    if frames != [] {
      BeforeMeaning(frames[1..], others);
      var rest := Before(frames[1..], others);
      var clean := Clean(frames[0]);
      assert clean.Bytes() == EncodedFrame(frames[0].kind, frames[0].payload);
      Cons(clean, rest);
      NoiselessCons(clean, rest);
    }
  }

  lemma NoiselessCons(s: Segment, rest: seq<Segment>)
    requires s.noise == [] && Noiseless(rest)
    ensures Noiseless([s] + rest)
  {
    assert ([s] + rest)[1..] == rest;
  }

  lemma {:induction false} NoiselessLeft(segs: seq<Segment>, n: nat)
    requires Noiseless(segs)
    ensures !Splits(segs, n) && Noiseless(Left(segs, n).segs)
  {
    if segs != [] {
      if n >= |segs[0].Bytes()| {
        NoiselessLeft(segs[1..], n - |segs[0].Bytes()|);
      } else {
        var k := Dropped(segs[0], n);
        assert Trimmed(segs, k)[1..] == segs[1..];
      }
    }
  }

  lemma {:induction false} NoiselessKeepsMagic(segs: seq<Segment>, held: nat, chunks: seq<seq<byte>>)
    requires Noiseless(segs)
    ensures KeepsMagic(segs, held, chunks)
    decreases |chunks|
  {
    hide Splits, Left, Noiseless;
    if chunks != [] {
      var n := held + |chunks[0]|;
      NoiselessLeft(segs, n);
      NoiselessKeepsMagic(Left(segs, n).segs, Left(segs, n).held, chunks[1..]);
    }
  }

  /**
   * Encoded frames, concatenated and cut into any chunks that never overflow: the packets drained
   * are exactly the decodable frames in order, the buffer ends empty, nothing is counted invalid.
   */
  lemma EncodedFramesAreDelivered(limit: nat, frames: seq<MickFrame>, chunks: seq<seq<byte>>)
    requires Encodable(frames) && Flatten(chunks) == EncodedStream(frames)
    requires !Receive(limit, [], chunks).overflowed
    ensures Receive(limit, [], chunks) == Received(DecodeAll(frames), [], 0, false)
  {
    hide Receive, Splits, EncodedStream;
    assert Noiseless([]) by {
      NothingSplits();
    }
    BeforeMeaning(frames, []);
    NoiselessKeepsMagic(Before(frames, []), 0, chunks);
    SegmentsDelivered(limit, Before(frames, []), chunks);
  }

  lemma NothingSplits()
    ensures Noiseless([]) && AllValid([])
  {
  }

  // ---------------------------------------------------------------- one corrupted byte

  /** Offsets 3 to 4 + |payload| of a frame: its type, its payload and its checksum byte. */
  lemma CorruptedFrame(f: MickFrame, j: nat, v: byte) returns (s: Segment)
    requires |f.payload| <= 253 && 3 <= j <= 4 + |f.payload|
    requires v != EncodedFrame(f.kind, f.payload)[j]
    ensures s.noise == [] && s.Valid() && !s.Intact()
    ensures s.Frame() == EncodedFrame(f.kind, f.payload)[j := v]
  {
    var ck := FrameChecksum(f.kind, f.payload);
    var body: seq<byte> := [(|f.payload| + 2) % 256, f.kind] + f.payload;
    if j == 4 + |f.payload| {
      s := Segment([], f.kind, f.payload, v);
    } else {
      ChecksumDetectsOneByte(body, j - 2, v);
      if j == 3 {
        s := Segment([], v, f.payload, ck);
        assert body[1 := v] == [(|f.payload| + 2) % 256, v] + f.payload;
      } else {
        s := Segment([], f.kind, f.payload[j - 4 := v], ck);
        assert body[j - 2 := v] == [(|f.payload| + 2) % 256, f.kind] + f.payload[j - 4 := v];
      }
    }
  }

  /**
   * Change one type, payload or checksum byte of one frame: however the bytes are cut into chunks,
   * exactly that frame is lost and exactly one invalid frame is counted.
   */
  lemma OneChangedByteLosesOneFrame(limit: nat, before: seq<MickFrame>, f: MickFrame, after: seq<MickFrame>,
                                    j: nat, v: byte, chunks: seq<seq<byte>>)
    requires Encodable(before) && Encodable(after) && |f.payload| <= 253
    requires 3 <= j <= 4 + |f.payload| && v != EncodedFrame(f.kind, f.payload)[j]
    requires Flatten(chunks) ==
             EncodedStream(before) + (EncodedFrame(f.kind, f.payload)[j := v] + EncodedStream(after))
    requires !Receive(limit, [], chunks).overflowed
    ensures Receive(limit, [], chunks) == Received(DecodeAll(before) + DecodeAll(after), [], 1, false)
  {
    hide Receive, EncodedStream, Encodable, FrameWith, FrameChecksum, Noiseless, AllValid;
    var s := CorruptedFrame(f, j, v);
    NothingSplits();
    BeforeMeaning(after, []);
    var tail := Before(after, []);
    OneBadSegment(s, tail);
    BeforeMeaning(before, [s] + tail);
    NoiselessKeepsMagic(Before(before, [s] + tail), 0, chunks);
    SegmentsDelivered(limit, Before(before, [s] + tail), chunks);
  }

  lemma OneBadSegment(s: Segment, tail: seq<Segment>)
    requires s.noise == [] && s.Valid() && !s.Intact() && AllValid(tail) && Noiseless(tail)
    ensures AllValid([s] + tail) && Noiseless([s] + tail)
    ensures StreamBytes([s] + tail) == s.Frame() + StreamBytes(tail)
    ensures Delivered([s] + tail) == Delivered(tail)
    ensures Rejected([s] + tail) == 1 + Rejected(tail)
  {
    Cons(s, tail);
    NoiselessCons(s, tail);
    assert s.Bytes() == s.Frame();
  }

  // ---------------------------------------------------------------- overflow

  predicate Short(limit: nat, chunks: seq<seq<byte>>) {
    chunks == [] || (259 + |chunks[0]| <= limit && Short(limit, chunks[1..]))
  }

  /** On any bytes whatever, chunks at least 259 bytes below the limit never overflow the buffer. */
  lemma {:induction false} ShortChunksNeverOverflow(limit: nat, buffer: seq<byte>, chunks: seq<seq<byte>>)
    requires |buffer| < 260 && Short(limit, chunks)
    ensures !Receive(limit, buffer, chunks).overflowed
    decreases |chunks|
  {
    hide Drain;
    if chunks != [] {
      var joined := Joined(limit, buffer, chunks[0]);
      DrainSettles(joined);
      ShortChunksNeverOverflow(limit, Drain(joined).rest, chunks[1..]);
    }
  }
}
