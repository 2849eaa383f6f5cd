// The resynchronising receiver of the Mick binary protocol: MickBinaryPacketStream
// in chassis_packet.cpp.  `Drain` is the value-level meaning of DrainPackets.
module MickStream {
  import opened Common
  import opened ChassisPacket

  // ---------------------------------------------------------------- scanning

  predicate MagicAt(b: seq<byte>, k: nat) {
    k + 1 < |b| && b[k] == MAGIC0 && b[k + 1] == MAGIC1
  }

  predicate MagicFree(b: seq<byte>) {
    forall k: nat | k < |b| :: !MagicAt(b, k)
  }

  /** `std::search` for the two magic bytes: the first occurrence, if any. */
  function FindMagic(b: seq<byte>): (at: Option<nat>)
    ensures at.None? <==> MagicFree(b)
    ensures at.Some? ==> MagicAt(b, at.value) && forall k: nat | k < at.value :: !MagicAt(b, k)
  {
    if |b| < 2 then None
    else if MagicAt(b, 0) then Some(0)
    else
      assert forall k: nat :: MagicAt(b, k + 1) <==> MagicAt(b[1..], k);
      assert forall k: nat | 0 < k :: MagicAt(b, k) <==> MagicAt(b[1..], k - 1);
      match FindMagic(b[1..])
      case None => None
      case Some(k) => Some(k + 1)
  }

  function TotalLength(b: seq<byte>): nat
    requires |b| >= 3
  {
    5 + b[2] as int
  }

  /** What the receiver makes of a buffer that starts with the magic bytes. */
  datatype Verdict = TooShort | BadLength | Incomplete | BadTrailer | BadChecksum | Accepted

  function Inspect(b: seq<byte>): Verdict {
    if |b| < 7 then TooShort
    else if b[2] < 2 then BadLength
    else if |b| < TotalLength(b) then Incomplete
    else if b[TotalLength(b) - 2] != TRAILER0 || b[TotalLength(b) - 1] != TRAILER1 then BadTrailer
    else if Checksum(b[2..TotalLength(b) - 3]) != b[TotalLength(b) - 3] then BadChecksum
    else Accepted
  }

  function FrameAtFront(b: seq<byte>): MickFrame
    requires Inspect(b) == Accepted
  {
    MickFrame(b[3], b[4..TotalLength(b) - 3])
  }

  function Decoded(frame: MickFrame): seq<Packet> {
    match DecodeMickBinaryPacket(frame)
    case Some(packet) => [packet]
    case None => []
  }

  /** One pass of the receive loop: either it stops with `rest` kept, or it goes on with `rest`. */
  datatype Pass = Stop(rest: seq<byte>) | Continue(packets: seq<Packet>, invalid: nat, rest: seq<byte>)

  function PassAtMagic(f: seq<byte>): (p: Pass)
    ensures p.Continue? ==> |p.rest| < |f|
  {
    match Inspect(f)
    case TooShort => Stop(f)
    case Incomplete => Stop(f)
    case BadLength => Continue([], 1, f[1..])
    case BadTrailer => Continue([], 1, f[1..])
    case BadChecksum => Continue([], 1, f[TotalLength(f)..])
    case Accepted => Continue(Decoded(FrameAtFront(f)), 0, f[TotalLength(f)..])
  }

  function OnePass(b: seq<byte>): (p: Pass)
    ensures p.Continue? ==> |p.rest| < |b|
  {
    if |b| < 7 then Stop(b)
    else
      match FindMagic(b)
      case None => Stop([])
      case Some(h) => PassAtMagic(b[h..])
  }

  datatype Drained = Drained(packets: seq<Packet>, rest: seq<byte>, invalid: nat)

  function After(packets: seq<Packet>, invalid: nat, d: Drained): Drained {
    Drained(packets + d.packets, d.rest, invalid + d.invalid)
  }

  /** Everything one call of DrainPackets does to a buffer. */
  function Drain(b: seq<byte>): Drained
    decreases |b|
  {
    match OnePass(b)
    case Stop(rest) => Drained([], rest, 0)
    case Continue(packets, invalid, rest) => After(packets, invalid, Drain(rest))
  }

  /** A pass that goes on adds its packets and its error to what has been collected so far. */
  lemma Collect(start: seq<byte>, packets: seq<Packet>, dropped: nat, b: seq<byte>)
    requires Drain(start) == After(packets, dropped, Drain(b)) && OnePass(b).Continue?
    ensures Drain(start) ==
            After(packets + OnePass(b).packets, dropped + OnePass(b).invalid, Drain(OnePass(b).rest))
  {
    hide Drain, OnePass;
    DrainContinues(b);
    var p, rest := OnePass(b), Drain(OnePass(b).rest);
    assert packets + (p.packets + rest.packets) == (packets + p.packets) + rest.packets;
  }

  lemma DrainContinues(b: seq<byte>)
    requires OnePass(b).Continue?
    ensures Drain(b) == After(OnePass(b).packets, OnePass(b).invalid, Drain(OnePass(b).rest))
  {
    hide OnePass;
  }

  lemma OnePassIs(b: seq<byte>)
    requires |b| >= 7
    ensures OnePass(b) == match FindMagic(b) case None => Stop([]) case Some(h) => PassAtMagic(b[h..])
  {
    hide FindMagic, PassAtMagic;
  }

  /**
   * What a drain makes of a buffer of at least seven bytes with the magic at its front: a length below 2 or a wrong
   * trailer costs one byte, a wrong checksum the whole frame, each counting one error; an incomplete frame waits; a
   * good one is decoded and consumed.
   */
  lemma FrameAtFrontMeans(f: seq<byte>)
    requires |f| >= 7 && f[0] == 0xae && f[1] == 0xea
    ensures var n := 5 + f[2] as int;
      if f[2] < 2 then Drain(f) == After([], 1, Drain(f[1..]))
      else if |f| < n then Drain(f) == Drained([], f, 0)
      else if f[n - 2] != 0xef || f[n - 1] != 0xfe then Drain(f) == After([], 1, Drain(f[1..]))
      else if ByteSum(f[2..n - 3]) % 256 != f[n - 3] as int then Drain(f) == After([], 1, Drain(f[n..]))
      else match DecodeMickBinaryPacket(MickFrame(f[3], f[4..n - 3]))
           case Some(packet) => Drain(f) == After([packet], 0, Drain(f[n..]))
           case None => Drain(f) == After([], 0, Drain(f[n..]))
  {
    hide ByteSum, DecodeMickBinaryPacket, Drain;
    assert MagicAt(f, 0);
    assert FindMagic(f) == Some(0) && f[0..] == f;
    DrainIs(f);
  }

  lemma DrainIs(b: seq<byte>)
    ensures Drain(b) == match OnePass(b)
                        case Stop(rest) => Drained([], rest, 0)
                        case Continue(packets, invalid, rest) => After(packets, invalid, Drain(rest))
  {
    hide OnePass;
  }

  class MickBinaryPacketStream {
    const maxBufferBytes: nat
    var buffer: seq<byte>
    var overflowed: bool
    var invalidFrameCount: nat

    constructor (maxBufferBytes: nat)
      ensures this.maxBufferBytes == maxBufferBytes
      ensures buffer == [] && !overflowed && invalidFrameCount == 0
    {
      this.maxBufferBytes := maxBufferBytes;
      buffer, overflowed, invalidFrameCount := [], false, 0;
    }

    method Append(data: seq<byte>)
      modifies this
      ensures invalidFrameCount == old(invalidFrameCount)
      ensures overflowed == (old(overflowed) || |old(buffer) + data| > maxBufferBytes)
      ensures buffer == if |old(buffer) + data| > maxBufferBytes then [] else old(buffer) + data
    {
      buffer := buffer + data;
      if |buffer| > maxBufferBytes {
        buffer := [];
        overflowed := true;
      }
    }

    /** The body of the receive loop: one frame consumed, one byte skipped, or nothing left to do. */
    method ReceiveOne() returns (more: bool, packets: seq<Packet>)
      requires |buffer| >= 7
      modifies this
      ensures overflowed == old(overflowed)
      ensures buffer == OnePass(old(buffer)).rest
      ensures more == OnePass(old(buffer)).Continue?
      ensures more ==> packets == OnePass(old(buffer)).packets
      ensures more ==> invalidFrameCount == old(invalidFrameCount) + OnePass(old(buffer)).invalid
      ensures !more ==> packets == [] && invalidFrameCount == old(invalidFrameCount)
    {
      OnePassIs(buffer);
      hide OnePass, FindMagic, MagicFree, PassAtMagic;
      var header := FindMagic(buffer);
      if header.None? {
        buffer := [];
        return false, [];
      }
      buffer := buffer[header.value..];
      more, packets := ReceiveAtMagic();
    }

    /** The rest of the loop body, with the magic at the front of the buffer. */
    method ReceiveAtMagic() returns (more: bool, packets: seq<Packet>)
      modifies this
      ensures overflowed == old(overflowed)
      ensures buffer == PassAtMagic(old(buffer)).rest
      ensures more == PassAtMagic(old(buffer)).Continue?
      ensures more ==> packets == PassAtMagic(old(buffer)).packets
      ensures more ==> invalidFrameCount == old(invalidFrameCount) + PassAtMagic(old(buffer)).invalid
      ensures !more ==> packets == [] && invalidFrameCount == old(invalidFrameCount)
    {
      hide Checksum, DecodeMickBinaryPacket;
      more, packets := false, [];
      if |buffer| < 7 {
        return;
      }
      var length := buffer[2];
      var total: nat := 2 + 1 + length as int + 2;
      if length < 2 {
        buffer := buffer[1..];
        invalidFrameCount := invalidFrameCount + 1;
        return true, [];
      }
      if |buffer| < total {
        return;
      }
      if buffer[total - 2] != TRAILER0 || buffer[total - 1] != TRAILER1 {
        buffer := buffer[1..];
        invalidFrameCount := invalidFrameCount + 1;
        return true, [];
      }
      var checksum := SumBytes(buffer[2..total - 3]);
      if checksum != buffer[total - 3] {
        buffer := buffer[total..];
        invalidFrameCount := invalidFrameCount + 1;
        return true, [];
      }
      var frame := MickFrame(buffer[3], buffer[4..total - 3]);
      match DecodeMickBinaryPacket(frame) {
        case Some(packet) => packets := packets + [packet];
        case None =>
      }
      buffer := buffer[total..];
      more := true;
    }

    method DrainPackets() returns (packets: seq<Packet>)
      modifies this
      ensures overflowed == old(overflowed)
      ensures packets == Drain(old(buffer)).packets
      ensures buffer == Drain(old(buffer)).rest
      ensures invalidFrameCount == old(invalidFrameCount) + Drain(old(buffer)).invalid
    {
      packets := [];
      ghost var dropped: nat := 0;
      while |buffer| >= 7
        invariant overflowed == old(overflowed)
        invariant invalidFrameCount == old(invalidFrameCount) + dropped
        invariant Drain(old(buffer)) == After(packets, dropped, Drain(buffer))
        decreases |buffer|
      {
        ghost var before := buffer;
        var more, received := ReceiveOne();
        if !more {
          return;
        }
        Collect(old(buffer), packets, dropped, before);
        packets := packets + received;
        dropped := dropped + OnePass(before).invalid;
      }
    }

    method ClearOverflow()
      modifies this`overflowed
      ensures !overflowed
    {
      overflowed := false;
    }

    method ClearInvalidFrameCount()
      modifies this`invalidFrameCount
      ensures invalidFrameCount == 0
    {
      invalidFrameCount := 0;
    }
  }

  // ---------------------------------------------------------------- arbitrary bytes

  /** A complete frame with the right magic, length, checksum and trailer starts at offset `k`. */
  ghost predicate AcceptedAt(b: seq<byte>, k: nat) {
    k <= |b| && MagicAt(b[k..], 0) && Inspect(b[k..]) == Accepted
  }

  ghost predicate DecodesAt(b: seq<byte>, k: nat, packet: Packet, limit: nat) {
    && AcceptedAt(b, k)
    && DecodeMickBinaryPacket(FrameAtFront(b[k..])) == Some(packet)
    && k + TotalLength(b[k..]) <= limit
  }

  ghost predicate Settled(rest: seq<byte>) {
    || |rest| < 7
    || (MagicAt(rest, 0) && rest[2] >= 2 && |rest| < TotalLength(rest))
  }

  ghost function FrameEnd(b: seq<byte>, k: nat): nat {
    if AcceptedAt(b, k) then k + TotalLength(b[k..]) else k
  }

  /** `offs` are offsets, from `base` on, of genuine, ordered, disjoint frames behind `packets`. */
  ghost predicate Witnessed(b: seq<byte>, base: nat, packets: seq<Packet>, end: nat, offs: seq<nat>)
    decreases |offs|
  {
    if offs == [] then packets == [] && base <= end <= |b|
    else
      && packets != []
      && base <= offs[0]
      && DecodesAt(b, offs[0], packets[0], end)
      && Witnessed(b, FrameEnd(b, offs[0]), packets[1..], end, offs[1..])
  }

  ghost predicate Explained(b: seq<byte>, base: nat, packets: seq<Packet>, end: nat) {
    exists offs :: Witnessed(b, base, packets, end, offs)
  }

  lemma ExplainedNothing(b: seq<byte>, base: nat, end: nat)
    requires base <= end <= |b|
    ensures Explained(b, base, [], end)
  {
    assert Witnessed(b, base, [], end, []);
  }

  lemma ExplainedFrom(b: seq<byte>, base: nat, m: nat, packets: seq<Packet>, end: nat)
    requires base <= m && Explained(b, m, packets, end)
    ensures Explained(b, base, packets, end)
  {
    var offs :| Witnessed(b, m, packets, end, offs);
    if offs == [] {
      ExplainedNothing(b, base, end);
    } else {
      assert Witnessed(b, base, packets, end, offs);
    }
  }

  lemma ExplainedCons(b: seq<byte>, base: nat, h: nat, packet: Packet, packets: seq<Packet>, end: nat)
    requires base <= h && DecodesAt(b, h, packet, end) && Explained(b, FrameEnd(b, h), packets, end)
    ensures Explained(b, base, [packet] + packets, end)
  {
    var offs :| Witnessed(b, FrameEnd(b, h), packets, end, offs);
    assert ([packet] + packets)[1..] == packets;
    assert ([h] + offs)[1..] == offs;
    assert Witnessed(b, base, [packet] + packets, end, [h] + offs);
  }

  lemma {:induction false} DrainIsSoundFrom(b: seq<byte>, base: nat)
    requires base <= |b|
    ensures var d := Drain(b[base..]);
      && base <= |b| - |d.rest| && d.rest == b[|b| - |d.rest|..]
      && Explained(b, base, d.packets, |b| - |d.rest|)
    decreases |b| - base
  {
    hide OnePass;
    hide Explained;
    if OnePass(b[base..]).Stop? {
      StopIsSound(b, base);
      ExplainedNothing(b, base, |b| - |Drain(b[base..]).rest|);
    } else {
      var h := PassIsSound(b, base);
      var m := |b| - |OnePass(b[base..]).rest|;
      DrainIsSoundFrom(b, m);
      ExplainedPass(b, base, m, |b| - |Drain(b[m..]).rest|);
    }
  }

  lemma ExplainedPass(b: seq<byte>, base: nat, m: nat, end: nat)
    requires base <= m <= |b| && OnePass(b[base..]).Continue? && OnePass(b[base..]).rest == b[m..]
    requires Explained(b, m, Drain(b[m..]).packets, end) && m <= end
    ensures Explained(b, base, Drain(b[base..]).packets, end)
  {
    hide DecodesAt, FrameEnd, Explained, OnePass;
    var later := Drain(b[m..]).packets;
    var h := PassIsSound(b, base);
    if OnePass(b[base..]).packets == [] {
      assert Drain(b[base..]).packets == later;
      ExplainedFrom(b, base, m, later, end);
    } else {
      var packet := OnePass(b[base..]).packets[0];
      assert OnePass(b[base..]).packets == [packet];
      DecodesWithin(b, h, packet, m, end);
      ExplainedCons(b, base, h, packet, later, end);
    }
  }

  lemma DecodesWithin(b: seq<byte>, k: nat, packet: Packet, limit: nat, end: nat)
    requires DecodesAt(b, k, packet, limit) && limit <= end
    ensures DecodesAt(b, k, packet, end)
  {
  }

  lemma StopIsSound(b: seq<byte>, base: nat)
    requires base <= |b| && OnePass(b[base..]).Stop?
    ensures var rest := OnePass(b[base..]).rest;
      base <= |b| - |rest| && rest == b[|b| - |rest|..]
  {
  }

  ghost predicate PassExplained(b: seq<byte>, h: nat, p: Pass) {
    && p.Continue? && h < |b| - |p.rest| && p.rest == b[|b| - |p.rest|..]
    && |p.packets| <= 1
    && (p.packets != [] ==>
          FrameEnd(b, h) == |b| - |p.rest| && DecodesAt(b, h, p.packets[0], |b| - |p.rest|))
  }

  lemma PassAtMagicIsSound(b: seq<byte>, h: nat)
    requires h <= |b| && MagicAt(b[h..], 0) && PassAtMagic(b[h..]).Continue?
    ensures PassExplained(b, h, PassAtMagic(b[h..]))
  {
    hide Inspect, PassExplained;
    if Inspect(b[h..]) == Accepted {
      AcceptedPassIsSound(b, h);
    } else {
      var n: nat := 1;
      if Inspect(b[h..]) == BadChecksum {
        n := WholeLength(b[h..]);
      }
      SilentPassIsSound(b, h, n, PassAtMagic(b[h..]));
    }
  }

  lemma WholeLength(f: seq<byte>) returns (n: nat)
    requires Inspect(f) == BadChecksum || Inspect(f) == Accepted
    ensures 7 <= n <= |f| && n == TotalLength(f)
  {
    n := TotalLength(f);
  }

  lemma SilentPassIsSound(b: seq<byte>, h: nat, n: nat, p: Pass)
    requires h <= |b| && 0 < n <= |b[h..]| && p == Continue([], 1, b[h..][n..])
    ensures PassExplained(b, h, p)
  {
    assert b[h..][n..] == b[h + n..];
  }

  lemma AcceptedPassIsSound(b: seq<byte>, h: nat)
    requires h <= |b| && MagicAt(b[h..], 0) && Inspect(b[h..]) == Accepted
    ensures PassExplained(b, h, PassAtMagic(b[h..]))
  {
    var f := b[h..];
    var n := WholeLength(f);
    assert f[n..] == b[h + n..];
    hide Inspect;
  }

  lemma PassIsSound(b: seq<byte>, base: nat) returns (h: nat)
    requires base <= |b| && OnePass(b[base..]).Continue?
    ensures base <= h && PassExplained(b, h, OnePass(b[base..]))
  {
    hide PassAtMagic;
    h := base + FindMagic(b[base..]).value;
    assert b[base..][h - base..] == b[h..];
    PassAtMagicIsSound(b, h);
  }

  ghost predicate DecodeInOrder(b: seq<byte>, offs: seq<nat>, packets: seq<Packet>, end: nat) {
    && |offs| == |packets|
    && (forall i | 0 <= i < |offs| :: DecodesAt(b, offs[i], packets[i], end))
    && (forall i, j | 0 <= i < j < |offs| :: FrameEnd(b, offs[i]) <= offs[j])
  }

  ghost predicate Genuine(b: seq<byte>, packets: seq<Packet>, end: nat) {
    exists offs :: DecodeInOrder(b, offs, packets, end)
  }

  /**
   * On arbitrary bytes: every packet decodes a frame with the right magic, length, checksum and
   * trailer; these frames start at increasing offsets, do not overlap, and end before the bytes
   * that are kept, which are a suffix of the input.
   */
  lemma DrainIsSound(b: seq<byte>)
    ensures var d := Drain(b);
      && |d.rest| <= |b| && d.rest == b[|b| - |d.rest|..]
      && Genuine(b, d.packets, |b| - |d.rest|)
  {
    assert b[0..] == b;
    DrainIsSoundFrom(b, 0);
    var end := |b| - |Drain(b).rest|;
    var offs :| Witnessed(b, 0, Drain(b).packets, end, offs);
    WitnessedInOrder(b, 0, Drain(b).packets, end, offs);
  }

  lemma {:induction false} WitnessedInOrder(b: seq<byte>, base: nat, packets: seq<Packet>, end: nat, offs: seq<nat>)
    requires Witnessed(b, base, packets, end, offs)
    ensures DecodeInOrder(b, offs, packets, end)
    ensures forall i | 0 <= i < |offs| :: base <= offs[i]
    decreases |offs|
  {
    if offs != [] {
      var next := FrameEnd(b, offs[0]);
      WitnessedInOrder(b, next, packets[1..], end, offs[1..]);
      forall i | 0 < i < |offs|
        ensures next <= offs[i] && DecodesAt(b, offs[i], packets[i], end)
      {
        assert offs[i] == offs[1..][i - 1] && packets[i] == packets[1..][i - 1];
      }
      forall i, j | 0 < i < j < |offs|
        ensures FrameEnd(b, offs[i]) <= offs[j]
      {
        assert offs[i] == offs[1..][i - 1] && offs[j] == offs[1..][j - 1];
      }
    }
  }

  /** What is kept waits for more bytes: draining it again changes nothing, and it is under 260 bytes. */
  lemma {:induction false} DrainSettles(b: seq<byte>)
    ensures Settled(Drain(b).rest)
    ensures |Drain(b).rest| < 260
    ensures Drain(Drain(b).rest) == Drained([], Drain(b).rest, 0)
    decreases |b|
  {
    if |b| >= 7 && FindMagic(b).Some? {
      var f := b[FindMagic(b).value..];
      match Inspect(f)
      case TooShort =>
      case Incomplete =>
        assert MagicAt(f, 0);
        assert FindMagic(f) == Some(0);
        assert f[0..] == f;
      case BadLength => DrainSettles(f[1..]);
      case BadTrailer => DrainSettles(f[1..]);
      case BadChecksum => DrainSettles(f[TotalLength(f)..]);
      case Accepted => DrainSettles(f[TotalLength(f)..]);
    }
  }
}
