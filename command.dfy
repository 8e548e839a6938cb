/**
 * The command channel: the `PCSEND` reply frame built by `send_info`, and
 * the one scratch vector (`static tcp_buffer` in `write()`) into which the
 * bytes read from every client are gathered.
 */
module Command {
  import opened Common

  /** "PCSEND" */
  const PcSend: seq<byte> := [80, 67, 83, 69, 78, 68]
  const FrameLength := 14
  /** A command is exactly this many bytes in the scratch after a chunk. */
  const CommandLength := 4
  /** The scratch is cleared when it grows past this many bytes. */
  const ScratchLimit := 32

  /** `uint16_t chk = (a << 8 | b) ^ (c << 8 | d)` */
  function Checksum(a: byte, b: byte, c: byte, d: byte): bv16
  {
    (((a as bv16) << 8) | (b as bv16)) ^ (((c as bv16) << 8) | (d as bv16))
  }

  /**
   * The 14 bytes `send_info(a, b, c, d)` writes to the UART: the signature,
   * the two fixed meta bytes, the payload and the checksum high byte first.
   * The checksum bytes are the byte-wise XOR of the two payload halves.
   */
  function InfoFrame(a: byte, b: byte, c: byte, d: byte): (f: seq<byte>)
    ensures |f| == FrameLength
    ensures f[..6] == PcSend && f[6] == 0x02 && f[7] == 0x04
    ensures f[8..12] == [a, b, c, d]
    ensures f[12] == a ^ c && f[13] == b ^ d
  {
    var chk := CheckBytes(a, b, c, d);
    PcSend + [0x02, 0x04, a, b, c, d, chk.0, chk.1]
  }

  /**
   * `frame[12] = chk >> 8; frame[13] = chk & 0xFF`: the high and low
   * bytes of the checksum are the XOR of the high and of the low payload
   * bytes.
   */
  function CheckBytes(a: byte, b: byte, c: byte, d: byte): (r: (byte, byte))
    ensures r.0 == a ^ c && r.1 == b ^ d
  {
    var chk := Checksum(a, b, c, d);
    ((chk >> 8) as bv8, (chk & 0xFF) as bv8)
  }

  /**
   * What one non-blocking `read()` on a client socket yielded: a chunk of
   * bytes (`read_len > 0`), an orderly close (`read_len == 0`), or nothing
   * this time (`read_len < 0`, e.g. would block).
   */
  datatype ReadOutcome = Chunk(data: seq<byte>) | Closed | Blocked

  /** The effect of one connected client's turn on the shared scratch. */
  datatype Absorbed = Absorbed(scratch: seq<byte>, frame: Option<seq<byte>>, closed: bool)

  /** The safety bound: a scratch longer than 32 bytes is dropped. */
  function Bounded(s: seq<byte>): seq<byte>
  {
    if |s| > ScratchLimit then [] else s
  }

  /**
   * One iteration of the client loop in `write()` for a client that is not
   * disconnected: append the chunk, dispatch and clear on exactly 4 bytes,
   * clear on a close, and finally clear anything over 32 bytes.
   */
  function Absorb(scratch: seq<byte>, r: ReadOutcome): (res: Absorbed)
    ensures |res.scratch| <= ScratchLimit
    ensures res.closed <==> r.Closed?
    ensures res.frame.Some? <==> r.Chunk? && |scratch + r.data| == CommandLength
    ensures res.frame.Some? ==>
      var s := scratch + r.data;
      res.scratch == [] && res.frame.value == InfoFrame(s[0], s[1], s[2], s[3])
    ensures r.Closed? ==> res.scratch == []
    ensures r.Blocked? ==> res.scratch == Bounded(scratch)
    ensures r.Chunk? && res.frame.None? ==> res.scratch == Bounded(scratch + r.data)
  {
    match r
    case Chunk(data) =>
      var s := scratch + data;
      if |s| == CommandLength then Absorbed([], Some(InfoFrame(s[0], s[1], s[2], s[3])), false)
      else Absorbed(Bounded(s), None, false)
    case Closed => Absorbed([], None, true)
    case Blocked => Absorbed(Bounded(scratch), None, false)
  }

  /** Four bytes 01 02 03 04 in one chunk give one frame whose checksum is 0x0102 ^ 0x0304. */
  lemma {:induction false} ExampleCommand()
    ensures Absorb([], Chunk([0x01, 0x02, 0x03, 0x04])).frame
         == Some(PcSend + [0x02, 0x04, 0x01, 0x02, 0x03, 0x04, 0x02, 0x06])
  {
    var f := InfoFrame(0x01, 0x02, 0x03, 0x04);
    assert f == f[..6] + f[6..];
  }

  /** 33 bytes that never total exactly four are discarded without a frame. */
  lemma {:induction false} ExampleGarbage(chunk: seq<byte>)
    requires |chunk| == 33
    ensures Absorb([], Chunk(chunk)) == Absorbed([], None, false)
  {
  }

  /**
   * Once the scratch holds more than four bytes, no chunk can produce a
   * command until the scratch is cleared by a close or by the 32-byte bound.
   */
  lemma {:induction false} OverfullScratchIsStuck(scratch: seq<byte>, chunks: seq<seq<byte>>)
    requires |scratch| > CommandLength
    requires |scratch| + SumLengths(chunks) <= ScratchLimit
    ensures FeedAll(scratch, chunks).0 == []
    ensures FeedAll(scratch, chunks).1 == scratch + Flatten(chunks)
    decreases |chunks|
  {
    if chunks != [] {
      var r := Absorb(scratch, Chunk(chunks[0]));
      assert r.scratch == scratch + chunks[0];
      OverfullScratchIsStuck(r.scratch, chunks[1..]);
      assert Flatten(chunks) == chunks[0] + Flatten(chunks[1..]);
    }
  }

  function SumLengths(chunks: seq<seq<byte>>): nat
  {
    if chunks == [] then 0 else |chunks[0]| + SumLengths(chunks[1..])
  }

  function Flatten(chunks: seq<seq<byte>>): seq<byte>
  {
    if chunks == [] then [] else chunks[0] + Flatten(chunks[1..])
  }

  /** Frames produced and the scratch left after a run of chunks from connected clients. */
  function FeedAll(scratch: seq<byte>, chunks: seq<seq<byte>>): (seq<seq<byte>>, seq<byte>)
    decreases |chunks|
  {
    if chunks == [] then ([], scratch)
    else
      var r := Absorb(scratch, Chunk(chunks[0]));
      var rest := FeedAll(r.scratch, chunks[1..]);
      ((if r.frame.Some? then [r.frame.value] else []) + rest.0, rest.1)
  }

  /**
   * The scratch is shared: two bytes from one client followed by two bytes
   * from another make one command built from both.
   */
  lemma {:induction false} SharedScratchJoinsClients(x: seq<byte>, y: seq<byte>)
    requires |x| == 2 && |y| == 2
    ensures var first := Absorb([], Chunk(x));
      first.frame == None &&
      Absorb(first.scratch, Chunk(y)).frame == Some(InfoFrame(x[0], x[1], y[0], y[1]))
  {
  }
}
