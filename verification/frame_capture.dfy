/** The KISS capture buffer: the serial receive callback appends bytes to a
    fixed-length frame buffer until it holds `size` of them, and the polling
    machine asks whether the frame is complete. */
module FrameCapture {
  import opened Common

  /** `buffer`, `bufferSize` and `bufferPosition`: `data` is the frame buffer
      the capture writes into. */
  datatype FrameBuffer = FrameBuffer(data: seq<byte>, size: uint8, position: uint8)
  {
    /** The cursor never passes the armed length, which fits the buffer. */
    predicate Valid()
    {
      position <= size <= |data|
    }

    /** `isFrameComplete()`. */
    predicate IsComplete()
    {
      position == size
    }
  }

  /** The low byte of the `uint16_t` the serial driver hands over, as the
      store into the `uint8_t` buffer truncates it. */
  function LowByte(c: bv16): byte
  {
    (c & 0xFF) as byte
  }

  /** `startEscDataRead(frameBuffer, frameLength)`: arms capture of
      `frameLength` bytes into `frame`, keeping its old contents until they
      are overwritten. */
  function StartEscDataRead(frame: seq<byte>, frameLength: uint8): (r: FrameBuffer)
    requires frameLength <= |frame|
    ensures r.Valid()
    ensures r.data == frame && r.size == frameLength && r.position == 0
    ensures r.IsComplete() <==> frameLength == 0
  {
    FrameBuffer(frame, frameLength, 0)
  }

  /** `escSensorDataReceive(c)`: stores the low byte of `c` at the cursor
      while there is room; bytes beyond the armed length are dropped. */
  function EscSensorDataReceive(b: FrameBuffer, c: bv16): (r: FrameBuffer)
    requires b.Valid()
    ensures r.Valid()
    ensures r.size == b.size && |r.data| == |b.data|
    ensures b.position < b.size ==>
              && r.position == b.position + 1
              && r.data[b.position] == LowByte(c)
              && forall i :: 0 <= i < |b.data| && i != b.position ==> r.data[i] == b.data[i]
    ensures b.IsComplete() ==> r == b
  {
    if b.position < b.size then
      FrameBuffer(b.data[b.position := LowByte(c)], b.size, b.position + 1)
    else
      b
  }

  /** The receive callback applied to each byte of `cs` in turn. */
  function ReceiveAll(b: FrameBuffer, cs: seq<bv16>): (r: FrameBuffer)
    requires b.Valid()
    ensures r.Valid()
    decreases |cs|
  {
    if |cs| == 0 then b else ReceiveAll(EscSensorDataReceive(b, cs[0]), cs[1..])
  }

  /** After arming, a stream of bytes fills the buffer in arrival order: the
      first `min(|cs|, frameLength)` bytes are stored at the front, later
      bytes are dropped, the rest of the buffer is untouched, and the frame is
      complete exactly when at least `frameLength` bytes have arrived. */
  lemma CaptureStoresPrefix(frame: seq<byte>, frameLength: uint8, cs: seq<bv16>)
    requires frameLength <= |frame|
    ensures var r := ReceiveAll(StartEscDataRead(frame, frameLength), cs);
            var n := if |cs| < frameLength then |cs| else frameLength as int;
            && r.size == frameLength
            && r.position == n
            && |r.data| == |frame|
            && (forall i :: 0 <= i < n ==> r.data[i] == LowByte(cs[i]))
            && (forall i :: n <= i < |frame| ==> r.data[i] == frame[i])
            && (r.IsComplete() <==> |cs| >= frameLength)
  {
    FillFrom(StartEscDataRead(frame, frameLength), cs);
  }

  /** Inductive core of `CaptureStoresPrefix`, from any cursor position. */
  lemma {:induction false} FillFrom(b: FrameBuffer, cs: seq<bv16>)
    requires b.Valid()
    ensures var r := ReceiveAll(b, cs);
            var room := b.size - b.position;
            var n := if |cs| < room then |cs| else room;
            && r.size == b.size
            && r.position == b.position + n
            && |r.data| == |b.data|
            && (forall i :: b.position <= i < b.position + n ==>
                  r.data[i] == LowByte(cs[i - b.position]))
            && (forall i :: 0 <= i < |b.data| && !(b.position <= i < b.position + n) ==>
                  r.data[i] == b.data[i])
    decreases |cs|
  {
    if |cs| > 0 {
      var b1 := EscSensorDataReceive(b, cs[0]);
      assert ReceiveAll(b, cs) == ReceiveAll(b1, cs[1..]);
      FillFrom(b1, cs[1..]);
      if b.position == b.size {
        assert b1 == b;
      } else {
        assert b1.position == b.position + 1;
      }
    }
  }
}
