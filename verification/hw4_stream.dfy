/** The Hobbywing V4 byte-stream synchroniser: finds the sync byte 0x9B,
    collects a 19-byte packet, and skips the 11 bytes that follow a
    0x9B 0x9B signature. */
module Hw4Stream {
  import opened Common

  const SyncByte: byte := 0x9B
  const PacketLength: nat := 19
  const SignatureSkip: uint8 := 11
  /** Size of the static `hwData` array. */
  const HwDataSize: nat := 20

  /** `hwData`, `skipBytes` and `bytesRead`. */
  datatype StreamCursor = StreamCursor(hwData: seq<byte>, skipBytes: uint8, bytesRead: uint8)
  {
    /** A partial packet is shorter than a whole one and starts with the sync
        byte; skipping only happens between packets. */
    predicate Valid()
    {
      && |hwData| == HwDataSize
      && bytesRead < PacketLength
      && (bytesRead > 0 ==> hwData[0] == SyncByte)
      && (skipBytes > 0 ==> bytesRead == 0)
    }

    /** Between packets, not skipping. */
    predicate Idle()
    {
      skipBytes == 0 && bytesRead == 0
    }
  }

  function InitialCursor(): (c: StreamCursor)
    ensures c.Valid() && c.Idle()
  {
    StreamCursor(seq(HwDataSize, _ => 0), 0, 0)
  }

  /** Result of `processHW4TelemetryStream`: the new cursor, and whether a
      whole packet is now in `hwData[0..19]`. */
  datatype SyncStep = SyncStep(cursor: StreamCursor, packetReady: bool)

  /** `processHW4TelemetryStream(dataByte)`. A packet is ready exactly when
      its 19th byte has been stored; `SyncStepBranches` states the rest. */
  function ProcessHw4TelemetryStream(c: StreamCursor, b: byte): (r: SyncStep)
    requires c.Valid()
    ensures r.cursor.Valid()
    ensures r.packetReady <==> c.skipBytes == 0 && c.bytesRead == PacketLength - 1
  {
    if c.skipBytes > 0 then
      SyncStep(c.(skipBytes := c.skipBytes - 1), false)
    else if c.bytesRead == 0 && b == SyncByte then
      SyncStep(c.(hwData := c.hwData[0 := b], bytesRead := 1), false)
    else if c.bytesRead == 1 && b == SyncByte then
      SyncStep(c.(bytesRead := 0, skipBytes := SignatureSkip), false)
    else if c.bytesRead > 0 then
      var data := c.hwData[c.bytesRead := b];
      if c.bytesRead + 1 == PacketLength then
        SyncStep(c.(hwData := data, bytesRead := 0), true)
      else
        SyncStep(c.(hwData := data, bytesRead := c.bytesRead + 1), false)
    else
      SyncStep(c, false)
  }

  /** What one byte does to the cursor. */
  lemma SyncStepBranches(c: StreamCursor, b: byte)
    requires c.Valid()
    ensures var r := ProcessHw4TelemetryStream(c, b);
      // a ready packet is the 18 stored bytes plus this one, and the cursor restarts
      && (r.packetReady ==>
            && r.cursor.Idle()
            && r.cursor.hwData[..PacketLength] == c.hwData[..PacketLength - 1] + [b])
      // while skipping, each byte only counts down
      && (c.skipBytes > 0 ==> r.cursor == c.(skipBytes := c.skipBytes - 1))
      // between packets, anything but the sync byte is dropped
      && (c.Idle() && b != SyncByte ==> r.cursor == c)
      // a second sync byte right after the first marks a signature packet
      && (c.skipBytes == 0 && c.bytesRead == 1 && b == SyncByte ==>
            r.cursor == c.(bytesRead := 0, skipBytes := SignatureSkip))
      // a sync byte between packets, or any byte of a packet under way other
      // than a signature's second sync byte, extends the partial packet
      && (&& c.skipBytes == 0
          && ((c.bytesRead == 0 && b == SyncByte) || (c.bytesRead > 0 && !(c.bytesRead == 1 && b == SyncByte)))
          && c.bytesRead + 1 < PacketLength ==>
            && !r.packetReady
            && r.cursor.skipBytes == 0
            && r.cursor.bytesRead == c.bytesRead + 1
            && r.cursor.hwData[..r.cursor.bytesRead] == c.hwData[..c.bytesRead] + [b])
  {
    if c.skipBytes == 0 && c.bytesRead == 0 && b == SyncByte {
      assert c.hwData[0 := b][..1] == [b];
    } else if c.skipBytes == 0 && c.bytesRead > 0 && !(c.bytesRead == 1 && b == SyncByte) {
      var data := c.hwData[c.bytesRead := b];
      assert data[..c.bytesRead + 1] == c.hwData[..c.bytesRead] + [b];
    }
  }

  /** The synchroniser run over `bytes`: the final cursor and every packet
      delivered, in order. */
  datatype SyncRun = SyncRun(cursor: StreamCursor, packets: seq<seq<byte>>)

  function SyncAll(c: StreamCursor, bytes: seq<byte>): (r: SyncRun)
    requires c.Valid()
    ensures r.cursor.Valid()
    decreases |bytes|
  {
    if |bytes| == 0 then SyncRun(c, [])
    else
      var step := ProcessHw4TelemetryStream(c, bytes[0]);
      var rest := SyncAll(step.cursor, bytes[1..]);
      var here := if step.packetReady then [step.cursor.hwData[..PacketLength]] else [];
      SyncRun(rest.cursor, here + rest.packets)
  }

  /** The partial packet in `c` is the tail of the stream `history` consumed so far. */
  predicate ConsistentWith(c: StreamCursor, history: seq<byte>)
    requires c.Valid()
  {
    c.bytesRead <= |history| && c.hwData[..c.bytesRead] == history[|history| - c.bytesRead..]
  }

  /** Every packet the synchroniser delivers is 19 consecutive bytes of the
      stream, the last of them the byte just consumed. */
  lemma StepDeliversStreamTail(c: StreamCursor, history: seq<byte>, b: byte)
    requires c.Valid() && ConsistentWith(c, history)
    ensures var r := ProcessHw4TelemetryStream(c, b);
            && ConsistentWith(r.cursor, history + [b])
            && (r.packetReady ==>
                  r.cursor.hwData[..PacketLength] == (history + [b])[|history| + 1 - PacketLength..])
  {
    SyncStepBranches(c, b);
    var r := ProcessHw4TelemetryStream(c, b);
    var h := history + [b];
    if r.packetReady {
      assert h[|h| - PacketLength..] == history[|history| - c.bytesRead..] + [b];
    } else if r.cursor.bytesRead > 0 && c.skipBytes == 0 {
      assert h[|h| - r.cursor.bytesRead..] == history[|history| - c.bytesRead..] + [b];
    }
  }

  /** `p` occurs in `s` as a block of consecutive bytes starting at `i`. */
  predicate InfixAt(p: seq<byte>, s: seq<byte>, i: int)
  {
    0 <= i <= |s| - |p| && s[i..i + |p|] == p
  }

  /** Over a whole run the partial packet stays the tail of the stream. */
  lemma {:induction false} SyncAllStaysConsistent(c: StreamCursor, history: seq<byte>, bytes: seq<byte>)
    requires c.Valid() && ConsistentWith(c, history)
    ensures ConsistentWith(SyncAll(c, bytes).cursor, history + bytes)
    decreases |bytes|
  {
    if |bytes| == 0 {
      assert history + bytes == history;
    } else {
      var step := ProcessHw4TelemetryStream(c, bytes[0]);
      StepDeliversStreamTail(c, history, bytes[0]);
      SyncAllStaysConsistent(step.cursor, history + [bytes[0]], bytes[1..]);
      assert history + [bytes[0]] + bytes[1..] == history + bytes;
    }
  }

  /** `p` is a whole packet found in the stream `s`. */
  ghost predicate PacketOf(p: seq<byte>, s: seq<byte>)
  {
    |p| == PacketLength && p[0] == SyncByte && exists i :: InfixAt(p, s, i)
  }

  /** A packet completed by byte `b` is a packet of the stream, whatever
      follows it. */
  lemma ReadyPacketIsInfix(c: StreamCursor, history: seq<byte>, b: byte, later: seq<byte>)
    requires c.Valid() && ConsistentWith(c, history)
    requires ProcessHw4TelemetryStream(c, b).packetReady
    ensures PacketOf(ProcessHw4TelemetryStream(c, b).cursor.hwData[..PacketLength], history + [b] + later)
  {
    var q := ProcessHw4TelemetryStream(c, b).cursor.hwData[..PacketLength];
    var h1 := history + [b];
    StepDeliversStreamTail(c, history, b);
    SyncStepBranches(c, b);
    assert q[0] == c.hwData[0] == SyncByte;
    var i := |h1| - PacketLength;
    assert (h1 + later)[i..i + PacketLength] == h1[i..];
    assert InfixAt(q, h1 + later, i);
  }

  /** Over a whole run: each delivered packet is a block of 19 consecutive
      stream bytes beginning with the sync byte. */
  lemma {:induction false} SyncAllDeliversInfixes(c: StreamCursor, history: seq<byte>, bytes: seq<byte>)
    requires c.Valid() && ConsistentWith(c, history)
    ensures forall p :: p in SyncAll(c, bytes).packets ==> PacketOf(p, history + bytes)
    decreases |bytes|
  {
    if |bytes| > 0 {
      var step := ProcessHw4TelemetryStream(c, bytes[0]);
      var h1 := history + [bytes[0]];
      var rest := SyncAll(step.cursor, bytes[1..]);
      StepDeliversStreamTail(c, history, bytes[0]);
      SyncAllDeliversInfixes(step.cursor, h1, bytes[1..]);
      assert h1 + bytes[1..] == history + bytes;
      if step.packetReady {
        ReadyPacketIsInfix(c, history, bytes[0], bytes[1..]);
        assert SyncAll(c, bytes).packets == [step.cursor.hwData[..PacketLength]] + rest.packets;
      } else {
        assert SyncAll(c, bytes).packets == rest.packets;
      }
    }
  }

  /** Runs compose: consuming `a` then `b` is consuming `a + b`. */
  lemma {:induction false} SyncAllAppend(c: StreamCursor, a: seq<byte>, b: seq<byte>)
    requires c.Valid()
    ensures SyncAll(c, a + b).cursor == SyncAll(SyncAll(c, a).cursor, b).cursor
    ensures SyncAll(c, a + b).packets == SyncAll(c, a).packets + SyncAll(SyncAll(c, a).cursor, b).packets
    decreases |a|
  {
    if |a| == 0 {
      assert a + b == b;
    } else {
      var step := ProcessHw4TelemetryStream(c, a[0]);
      var here := if step.packetReady then [step.cursor.hwData[..PacketLength]] else [];
      var ab := a + b;
      assert ab[0] == a[0];
      assert ab[1..] == a[1..] + b;
      SyncAllAppend(step.cursor, a[1..], b);
      var ra1 := SyncAll(step.cursor, a[1..]);
      var rb := SyncAll(ra1.cursor, b);
      var rab1 := SyncAll(step.cursor, ab[1..]);
      assert SyncAll(c, a) == SyncRun(ra1.cursor, here + ra1.packets);
      assert SyncAll(c, ab) == SyncRun(rab1.cursor, here + rab1.packets);
      assert here + (ra1.packets + rb.packets) == (here + ra1.packets) + rb.packets;
    }
  }

  /** Between packets, bytes other than the sync byte are discarded without
      any state change. */
  lemma {:induction false} NoiseIsDropped(c: StreamCursor, junk: seq<byte>)
    requires c.Valid() && c.Idle()
    requires forall i :: 0 <= i < |junk| ==> junk[i] != SyncByte
    ensures SyncAll(c, junk) == SyncRun(c, [])
    decreases |junk|
  {
    if |junk| > 0 {
      NoiseIsDropped(c, junk[1..]);
    }
  }

  /** Once a packet is under way (past a possible signature), the remaining
      bytes complete it. */
  lemma {:induction false} PartialPacketCompletes(c: StreamCursor, rest: seq<byte>)
    requires c.Valid() && c.skipBytes == 0 && c.bytesRead > 0
    requires |rest| == PacketLength - c.bytesRead
    requires c.bytesRead == 1 ==> rest[0] != SyncByte
    ensures SyncAll(c, rest).packets == [c.hwData[..c.bytesRead] + rest]
    ensures SyncAll(c, rest).cursor.Idle()
    decreases |rest|
  {
    SyncStepBranches(c, rest[0]);
    var step := ProcessHw4TelemetryStream(c, rest[0]);
    var here := if step.packetReady then [step.cursor.hwData[..PacketLength]] else [];
    var tail := SyncAll(step.cursor, rest[1..]);
    assert SyncAll(c, rest) == SyncRun(tail.cursor, here + tail.packets);
    if |rest| == 1 {
      assert step.packetReady;
      assert tail == SyncRun(step.cursor, []);
      assert rest == [rest[0]];
    } else {
      assert !step.packetReady;
      PartialPacketCompletes(step.cursor, rest[1..]);
      assert step.cursor.hwData[..step.cursor.bytesRead] + rest[1..]
          == c.hwData[..c.bytesRead] + rest;
    }
  }

  /** From between packets, a well-formed packet (sync byte first, no
      signature second byte) is delivered intact. */
  lemma PacketFromIdle(c: StreamCursor, packet: seq<byte>)
    requires c.Valid() && c.Idle()
    requires |packet| == PacketLength && packet[0] == SyncByte && packet[1] != SyncByte
    ensures SyncAll(c, packet).packets == [packet]
    ensures SyncAll(c, packet).cursor.Idle()
  {
    SyncStepBranches(c, packet[0]);
    var step := ProcessHw4TelemetryStream(c, packet[0]);
    assert !step.packetReady;
    PartialPacketCompletes(step.cursor, packet[1..]);
    assert step.cursor.hwData[..1] + packet[1..] == packet;
  }

  /** Resynchronisation: from between packets, after any run of noise free
      of the sync byte, a well-formed packet is delivered intact and the
      cursor is again idle. */
  lemma Resynchronises(c: StreamCursor, junk: seq<byte>, packet: seq<byte>)
    requires c.Valid() && c.Idle()
    requires forall i :: 0 <= i < |junk| ==> junk[i] != SyncByte
    requires |packet| == PacketLength && packet[0] == SyncByte && packet[1] != SyncByte
    ensures SyncAll(c, junk + packet).packets == [packet]
    ensures SyncAll(c, junk + packet).cursor.Idle()
  {
    NoiseIsDropped(c, junk);
    SyncAllAppend(c, junk, packet);
    PacketFromIdle(c, packet);
    assert [] + [packet] == [packet];
  }

  /** While skipping, exactly `skipBytes` bytes are swallowed whatever they
      are, sync bytes included. */
  lemma {:induction false} SkipCountsDown(c: StreamCursor, bytes: seq<byte>)
    requires c.Valid() && c.bytesRead == 0 && |bytes| == c.skipBytes as int
    ensures SyncAll(c, bytes).packets == []
    ensures SyncAll(c, bytes).cursor == c.(skipBytes := 0)
    decreases |bytes|
  {
    if |bytes| > 0 {
      SyncStepBranches(c, bytes[0]);
      SkipCountsDown(c.(skipBytes := c.skipBytes - 1), bytes[1..]);
    }
  }

  /** A signature packet: from between packets, two sync bytes followed by
      any eleven bytes deliver nothing and leave the cursor between packets
      again. */
  lemma SignatureSkipped(c: StreamCursor, skipped: seq<byte>)
    requires c.Valid() && c.Idle() && |skipped| == SignatureSkip as int
    ensures SyncAll(c, [SyncByte, SyncByte] + skipped).packets == []
    ensures SyncAll(c, [SyncByte, SyncByte] + skipped).cursor.Idle()
  {
    var c1 := ProcessHw4TelemetryStream(c, SyncByte).cursor;
    var c2 := ProcessHw4TelemetryStream(c1, SyncByte).cursor;
    SyncStepBranches(c1, SyncByte);
    SkipCountsDown(c2, skipped);
    SyncAllAppend(c, [SyncByte, SyncByte], skipped);
    assert SyncAll(c, [SyncByte, SyncByte]) == SyncRun(c2, []) by {
      assert [SyncByte, SyncByte][1..] == [SyncByte];
      assert SyncAll(c1, [SyncByte]) == SyncRun(c2, []);
    }
  }

  /** Fewer bytes than the current partial packet still needs deliver nothing. */
  lemma {:induction false} ShortRunDeliversNothing(c: StreamCursor, bytes: seq<byte>)
    requires c.Valid() && c.bytesRead as int + |bytes| < PacketLength
    ensures SyncAll(c, bytes).packets == []
    decreases |bytes|
  {
    if |bytes| > 0 {
      var step := ProcessHw4TelemetryStream(c, bytes[0]);
      SyncStepBranches(c, bytes[0]);
      assert !step.packetReady;
      assert step.cursor.bytesRead <= c.bytesRead + 1;
      ShortRunDeliversNothing(step.cursor, bytes[1..]);
    }
  }

  /** Recovery stops short of packets of the wrong length: from between packets,
      a packet cut off after 2 to 18 bytes and followed by a whole packet
      delivers exactly one packet: the stray bytes spliced to the first bytes
      of the whole packet, which equals the whole packet only by coincidence. */
  lemma TruncatedPacketCorruptsNext(c: StreamCursor, cut: seq<byte>, packet: seq<byte>)
    requires c.Valid() && c.Idle()
    requires 2 <= |cut| < PacketLength && cut[0] == SyncByte && cut[1] != SyncByte
    requires |packet| == PacketLength
    ensures SyncAll(c, cut + packet).packets == [cut + packet[..PacketLength - |cut|]]
    ensures SyncAll(c, cut + packet).packets[0][|cut|..] == packet[..PacketLength - |cut|]
  {
    var k := PacketLength - |cut|;
    var mixed := cut + packet[..k];
    assert cut + packet == mixed + packet[k..];
    PacketFromIdle(c, mixed);
    SyncAllAppend(c, mixed, packet[k..]);
    ShortRunDeliversNothing(SyncAll(c, mixed).cursor, packet[k..]);
    assert [mixed] + [] == [mixed];
  }

  /** A packet cut off right after its sync byte loses the next packet too:
      that sync byte and the next packet's own form a signature, so the next
      packet's following 11 bytes are skipped and its last 7 deliver nothing. */
  lemma LoneSyncSwallowsNext(c: StreamCursor, packet: seq<byte>)
    requires c.Valid() && c.Idle()
    requires |packet| == PacketLength && packet[0] == SyncByte
    ensures SyncAll(c, [SyncByte] + packet).packets == []
  {
    var skipped := packet[1..12];
    var rest := packet[12..];
    assert [SyncByte] + packet == ([SyncByte, SyncByte] + skipped) + rest;
    SignatureSkipped(c, skipped);
    SyncAllAppend(c, [SyncByte, SyncByte] + skipped, rest);
    var mid := SyncAll(c, [SyncByte, SyncByte] + skipped).cursor;
    ShortRunDeliversNothing(mid, rest);
  }
}
