/**
 * The `AVR645` component: a UART bridged to TCP clients. Bytes from the
 * receiver go into a ring buffer that every client drains at its own
 * cursor, and through the MPSEND frame parser; bytes from the clients
 * gather in one shared scratch that dispatches a PCSEND command on exactly
 * four bytes. The UART, the sockets and the sensors are parameters and
 * results: the bytes available on the UART, the outcome of each `writev`
 * and `read`, the frames published and the commands sent.
 */
module Bridge {
  import opened Common
  import Ring
  import Command
  import Parser

  /** What `accept()` finds on the listening socket: nothing, or a peer and its formatted address. */
  datatype Incoming = NoPeer | Peer(address: Option<string>)

  /** The client list, the shared scratch and the commands sent after some turns of `write()`. */
  datatype Turns = Turns(clients: seq<Ring.Client>, scratch: seq<byte>, commands: seq<seq<byte>>)

  /**
   * `write()` after the turns of the first `n` clients: a client that is
   * disconnected is skipped (its socket is not read); any other client's
   * read outcome goes through the shared scratch, and a close marks it.
   */
  function Intake(cs: seq<Ring.Client>, scratch: seq<byte>, inbound: seq<Command.ReadOutcome>, n: nat): (r: Turns)
    requires |inbound| == |cs| && n <= |cs|
    ensures |r.clients| == |cs|
    ensures |scratch| <= Command.ScratchLimit ==> |r.scratch| <= Command.ScratchLimit
    ensures forall k | 0 <= k < |cs| ::
      r.clients[k].id == cs[k].id && r.clients[k].position == cs[k].position
  {
    if n == 0 then Turns(cs, scratch, [])
    else Visit(Intake(cs, scratch, inbound, n - 1), n - 1, inbound[n - 1])
  }

  /** Client `k`'s turn in `write()`, given what its socket yielded. */
  function Visit(t: Turns, k: nat, r: Command.ReadOutcome): (u: Turns)
    requires k < |t.clients|
    ensures |u.clients| == |t.clients|
    ensures |t.scratch| <= Command.ScratchLimit ==> |u.scratch| <= Command.ScratchLimit
    ensures forall j | 0 <= j < |t.clients| ::
      u.clients[j].id == t.clients[j].id && u.clients[j].position == t.clients[j].position
  {
    var c := t.clients[k];
    if c.disconnected then t
    else
      var a := Command.Absorb(t.scratch, r);
      var sent := if a.frame.Some? then [a.frame.value] else [];
      var marked := if a.closed then t.clients[k := c.(disconnected := true)] else t.clients;
      Turns(marked, a.scratch, t.commands + sent)
  }

  /** The turns so far leave the clients whose turn has not come untouched. */
  lemma {:induction false} IntakeLeavesLaterClients(cs: seq<Ring.Client>, scratch: seq<byte>,
                                                    inbound: seq<Command.ReadOutcome>, n: nat)
    requires |inbound| == |cs| && n <= |cs|
    ensures forall k | n <= k < |cs| :: Intake(cs, scratch, inbound, n).clients[k] == cs[k]
  {
    if n > 0 {
      IntakeLeavesLaterClients(cs, scratch, inbound, n - 1);
    }
  }

  /**
   * A client whose turn has come is marked disconnected exactly when it
   * already was or its peer closed the connection.
   */
  lemma {:induction false} IntakeMarksCloses(cs: seq<Ring.Client>, scratch: seq<byte>,
                                             inbound: seq<Command.ReadOutcome>, n: nat)
    requires |inbound| == |cs| && n <= |cs|
    ensures forall k | 0 <= k < n ::
      Intake(cs, scratch, inbound, n).clients[k].disconnected <==> cs[k].disconnected || inbound[k].Closed?
  {
    if n > 0 {
      IntakeMarksCloses(cs, scratch, inbound, n - 1);
      IntakeLeavesLaterClients(cs, scratch, inbound, n - 1);
    }
  }

  /** Each turn sends at most one command, and every command is a 14-byte PCSEND frame. */
  lemma {:induction false} IntakeSendsFrames(cs: seq<Ring.Client>, scratch: seq<byte>,
                                             inbound: seq<Command.ReadOutcome>, n: nat)
    requires |inbound| == |cs| && n <= |cs|
    ensures var r := Intake(cs, scratch, inbound, n);
      |r.commands| <= n &&
      forall k | 0 <= k < |r.commands| ::
        |r.commands[k]| == Command.FrameLength && r.commands[k][..6] == Command.PcSend
  {
    if n > 0 {
      IntakeSendsFrames(cs, scratch, inbound, n - 1);
    }
  }

  /** A client that was already disconnected takes no part in `write()`: it sends no command. */
  lemma {:induction false} DisconnectedClientsSendNothing(cs: seq<Ring.Client>, scratch: seq<byte>,
                                                          inbound: seq<Command.ReadOutcome>, n: nat)
    requires |inbound| == |cs| && n <= |cs|
    requires forall k | 0 <= k < n :: cs[k].disconnected
    ensures Intake(cs, scratch, inbound, n) == Turns(cs, scratch, [])
  {
    if n > 0 {
      DisconnectedClientsSendNothing(cs, scratch, inbound, n - 1);
    }
  }

  class AVR645 {
    /** `buf_size_`. */
    const size: nat
    /** `buf_`: the ring storage. */
    const buf: array<byte>
    /** The parser fields and buffers. */
    const parser: Parser.FrameParser
    /** `buf_head_`: how many bytes the UART has delivered. */
    var head: nat
    /** `buf_tail_`. */
    var tail: nat
    /** `clients_`. */
    var clients: seq<Ring.Client>
    /** The function-local static `tcp_buffer` of `write()`, shared by all clients. */
    var scratch: seq<byte>
    /** Every byte the UART has delivered, in order. */
    ghost var stream: seq<byte>

    /** The storage is a checked size and holds the last `size` bytes of the stream. */
    ghost predicate Stored()
      reads this`head, this`stream, buf
    {
      Ring.CheckedBufferSize(size).Some? && buf.Length == size &&
      head == |stream| && Ring.Holds(buf[..], stream, size)
    }

    ghost predicate Valid()
      reads this, buf, parser, parser.upperBuf, parser.lowerBuf
    {
      Stored() && parser.Valid() &&
      tail <= head &&
      Ring.CursorsWithin(clients, head) &&
      |scratch| <= Command.ScratchLimit
    }

    /** The component with its storage allocated as `setup()` does, before any byte or client. */
    constructor (size: nat)
      requires Ring.CheckedBufferSize(size).Some?
      ensures Valid() && this.size == size
      ensures head == 0 && tail == 0 && clients == [] && scratch == [] && stream == []
      ensures Parser.Idle(parser.View())
      ensures fresh(buf) && fresh(parser) && fresh(parser.upperBuf) && fresh(parser.lowerBuf)
    {
      this.size := size;
      buf := new byte[size](_ => 0);
      parser := new Parser.FrameParser();
      head := 0;
      tail := 0;
      clients := [];
      scratch := [];
      stream := [];
    }

    /**
     * `accept()`: a new peer joins at the head, so it is sent only what
     * arrives from now on; its identifier is its address, or "unknown".
     */
    method Accept(conn: Incoming)
      requires Valid()
      modifies this`clients
      ensures Valid()
      ensures conn.NoPeer? ==> clients == old(clients)
      ensures conn.Peer? ==>
        var id := if conn.address.Some? then conn.address.value else "unknown";
        clients == old(clients) + [Ring.Client(id, head, false)]
      ensures head == old(head) && tail == old(tail) && stream == old(stream) && scratch == old(scratch)
    {
      if conn.Peer? {
        var identifier := "unknown";
        if conn.address.Some? {
          identifier := conn.address.value;
        }
        clients := clients + [Ring.Client(identifier, head, false)];
      }
    }

    /**
     * `read()`: every available UART byte is stored at the head's slot,
     * the tail is clamped, and the byte is fed to the parser. The storage
     * keeps holding the last `size` bytes of the stream.
     */
    method Read(input: seq<byte>) returns (frames: seq<Parser.Frame>)
      requires Valid()
      modifies this, buf, parser, parser.upperBuf, parser.lowerBuf
      ensures Valid()
      ensures stream == old(stream) + input && head == old(head) + |input|
      ensures tail == Ring.ClampTail(old(head), old(tail), |input|)
      ensures Parser.Run(old(parser.View()), input) == (parser.View(), frames)
      ensures clients == old(clients) && scratch == old(scratch)
    {
      ghost var s0, h0, t0, w0 := parser.View(), head, tail, stream;
      frames := [];
      var i := 0;
      while i < |input|
        invariant 0 <= i <= |input|
        invariant Valid()
        invariant stream == w0 + input[..i] && head == h0 + i
        invariant tail == Ring.ClampTail(h0, t0, i)
        invariant Parser.Run(s0, input[..i]) == (parser.View(), frames)
        invariant clients == old(clients) && scratch == old(scratch)
      {
        frames := Feed(s0, h0, t0, w0, input, i, frames);
        i := i + 1;
      }
      assert input[..|input|] == input;
    }

    /**
     * Iteration `i` of `read()`: the progress over the first `i` input
     * bytes extends to the first `i + 1`.
     */
    method Feed(ghost s0: Parser.PState, ghost h0: nat, ghost t0: nat, ghost w0: seq<byte>,
                input: seq<byte>, i: nat, sofar: seq<Parser.Frame>) returns (frames: seq<Parser.Frame>)
      requires Valid() && Parser.Good(s0) && i < |input| && Parser.Run(s0, input[..i]) == (parser.View(), sofar)
      requires t0 <= h0 && head == h0 + i && tail == Ring.ClampTail(h0, t0, i) && stream == w0 + input[..i]
      modifies this, buf, parser, parser.upperBuf, parser.lowerBuf
      ensures Valid() && Parser.Run(s0, input[..i + 1]) == (parser.View(), frames)
      ensures stream == w0 + input[..i + 1] && head == h0 + i + 1
      ensures tail == Ring.ClampTail(h0, t0, i + 1)
      ensures clients == old(clients) && scratch == old(scratch)
    {
      assert input[..i + 1] == input[..i] + [input[i]];
      Parser.RunStep(s0, input[..i], input[i], parser.View(), sofar);
      var ev := ReadByte(input[i]);
      frames := sofar + Parser.Events(ev);
    }

    /** One iteration of `read()`: the byte goes into the ring, then through the parser. */
    method ReadByte(c: byte) returns (ev: Option<Parser.Frame>)
      requires Valid()
      modifies this`head, this`tail, this`stream, buf, parser, parser.upperBuf, parser.lowerBuf
      ensures Valid()
      ensures stream == old(stream) + [c] && head == old(head) + 1
      ensures tail == if head - old(tail) > Ring.LagLimit then head - Ring.LagResume else old(tail)
      ensures (parser.View(), ev) == Parser.Step(old(parser.View()), c)
      ensures clients == old(clients) && scratch == old(scratch)
    {
      Push(c);
      ev := parser.ProcessByte(c);
    }

    /**
     * The ring-buffer half of one iteration of `read()`: store the byte at
     * the head's slot, advance the head, and clamp the tail to 64 behind
     * the head once it falls more than 128 behind.
     */
    method Push(c: byte)
      requires Stored() && tail <= head
      modifies this`head, this`tail, this`stream, buf
      ensures Stored() && tail <= head
      ensures stream == old(stream) + [c] && head == old(head) + 1
      ensures tail == if head - old(tail) > Ring.LagLimit then head - Ring.LagResume else old(tail)
    {
      Ring.StoreKeepsWindow(buf[..], stream, size, c);
      buf[Ring.BufIndex(head, size)] := c;
      head := head + 1;
      stream := stream + [c];
      if head - tail > Ring.LagLimit {
        tail := head - Ring.LagResume;
      }
    }

    /**
     * The two `iovec` segments for a cursor `p` at most one buffer behind
     * the head, gathered: they read exactly the stream bytes from `p` to the
     * head. For a larger lag the storage no longer holds those bytes.
     */
    method Window(p: nat) returns (request: seq<byte>)
      requires Stored() && p <= head && head - p <= size
      ensures request == stream[p..]
    {
      var seg := Ring.Segments(p, head, size);
      var idx := Ring.BufIndex(p, size);
      request := buf[idx..idx + seg.0] + buf[..seg.1];
      Ring.WindowReadsStream(buf[..], stream, size, p);
    }

    /**
     * `flush()`: each pending client is offered the stream from its cursor
     * to the head, as the two-segment window over the storage; its cursor
     * then advances by what `writev` accepted, and the tail becomes the
     * lowest cursor written to, or the head. The window is the unsent
     * stream only while every connected client is within one buffer of the
     * head, which the component does not enforce.
     */
    method Flush(outs: seq<Ring.WriteOutcome>) returns (offered: seq<seq<byte>>)
      requires Valid() && |outs| == |clients|
      requires Ring.LagsWithin(clients, head, size)
      modifies this`clients, this`tail
      ensures head == old(head) && stream == old(stream) && scratch == old(scratch)
      ensures Valid()
      ensures clients == Ring.FlushAll(old(clients), head, outs)
      ensures tail == Ring.TailUpTo(old(clients), head, outs, |outs|)
      ensures |offered| == |clients|
      ensures forall k | 0 <= k < |offered| :: offered[k] == Ring.Offer(old(clients)[k], stream)
    {
      tail := head;
      offered := [];
      var i := 0;
      while i < |clients|
        invariant 0 <= i <= |clients| == |outs| == |old(clients)|
        invariant head == old(head) && stream == old(stream) && scratch == old(scratch)
        invariant Stored() && Ring.LagsWithin(old(clients), head, size)
        invariant tail == Ring.TailUpTo(old(clients), head, outs, i)
        invariant clients == Ring.Flushed(old(clients), head, outs, i)
        invariant offered == Ring.Offers(old(clients), stream, i)
      {
        Ring.FlushedStep(old(clients), head, outs, i);
        Ring.OffersStep(old(clients), stream, i);
        var request := Turn(i, outs[i]);
        offered := offered + [request];
        i := i + 1;
      }
      Ring.FlushedAll(old(clients), head, outs);
    }

    /** The body of the client loop in `flush()`, for client `i`. */
    method Turn(i: nat, out: Ring.WriteOutcome) returns (request: seq<byte>)
      requires Stored() && i < |clients| && clients[i].position <= head
      requires !clients[i].disconnected ==> head - clients[i].position <= size
      modifies this`clients, this`tail
      ensures head == old(head) && stream == old(stream) && scratch == old(scratch) && Stored()
      ensures clients == old(clients)[i := Ring.Serve(old(clients)[i], head, out)]
      ensures tail == if Ring.Pending(old(clients)[i], head)
                      then Min(old(tail), Ring.Serve(old(clients)[i], head, out).position) else old(tail)
      ensures request == Ring.Offer(old(clients)[i], stream)
    {
      var c := clients[i];
      if c.disconnected || c.position == head {
        request := [];
      } else {
        var d;
        d, request := ServeClient(c, out);
        clients := clients[i := d];
        tail := Min(tail, d.position);
      }
    }

    /**
     * One pending client's turn in `flush()`: it is offered the stream from
     * its cursor to the head; its cursor advances by what `writev`
     * accepted, and a zero-byte write or a reset marks it disconnected.
     */
    method ServeClient(c: Ring.Client, out: Ring.WriteOutcome) returns (d: Ring.Client, request: seq<byte>)
      requires Stored() && c.position <= head && Ring.Pending(c, head) && head - c.position <= size
      ensures d == Ring.Serve(c, head, out)
      ensures request == Ring.Offer(c, stream)
    {
      request := Window(c.position);
      var written := Ring.Written(|request|, out);
      d := c;
      if written > 0 {
        d := c.(position := c.position + written);
      } else if written == 0 || out == Ring.Fails(true) {
        d := c.(disconnected := true);
      }
    }

    /**
     * `write()`: each connected client's read outcome goes through the
     * shared scratch; exactly four bytes send one PCSEND command.
     */
    method Write(inbound: seq<Command.ReadOutcome>) returns (commands: seq<seq<byte>>)
      requires Valid() && |inbound| == |clients|
      modifies this`clients, this`scratch
      ensures Valid()
      ensures var r := Intake(old(clients), old(scratch), inbound, |inbound|);
        clients == r.clients && scratch == r.scratch && commands == r.commands
      ensures head == old(head) && tail == old(tail) && stream == old(stream)
    {
      commands := [];
      var i := 0;
      while i < |clients|
        invariant 0 <= i <= |clients| == |inbound|
        invariant Valid()
        invariant Intake(old(clients), old(scratch), inbound, i) == Turns(clients, scratch, commands)
      {
        commands := Attend(old(clients), old(scratch), inbound, i, commands);
        i := i + 1;
      }
    }

    /** Client `i`'s turn of `write()`, after the turns of the clients before it. */
    method Attend(ghost cs: seq<Ring.Client>, ghost sc: seq<byte>, inbound: seq<Command.ReadOutcome>, i: nat,
                  sent: seq<seq<byte>>) returns (now: seq<seq<byte>>)
      requires Valid() && |inbound| == |cs| && i < |cs|
      requires Intake(cs, sc, inbound, i) == Turns(clients, scratch, sent)
      modifies this`clients, this`scratch
      ensures Valid()
      ensures Intake(cs, sc, inbound, i + 1) == Turns(clients, scratch, now)
    {
      now := sent;
      if !clients[i].disconnected {
        var frame, closed := Take(inbound[i]);
        if frame.Some? {
          now := now + [frame.value];
        }
        if closed {
          clients := clients[i := clients[i].(disconnected := true)];
        }
      }
    }

    /**
     * One connected client's turn in `write()` on the shared scratch:
     * append what was read and send a command on exactly four bytes, or
     * clear on a close; then clear anything over 32 bytes.
     */
    method Take(r: Command.ReadOutcome) returns (frame: Option<seq<byte>>, closed: bool)
      modifies this`scratch
      ensures Command.Absorbed(scratch, frame, closed) == Command.Absorb(old(scratch), r)
      ensures clients == old(clients) && head == old(head) && tail == old(tail) && stream == old(stream)
    {
      frame, closed := None, false;
      match r {
        case Chunk(data) =>
          scratch := scratch + data;
          if |scratch| == Command.CommandLength {
            frame := Some(Command.InfoFrame(scratch[0], scratch[1], scratch[2], scratch[3]));
            scratch := [];
          }
        case Closed =>
          closed := true;
          scratch := [];
        case Blocked =>
      }
      if |scratch| > Command.ScratchLimit {
        scratch := [];
      }
    }

    /** `cleanup()`: the disconnected clients are dropped; the others keep their order. */
    method Cleanup()
      requires Valid()
      modifies this`clients
      ensures Valid()
      ensures clients == Ring.Connected(old(clients))
      ensures forall k | 0 <= k < |clients| :: !clients[k].disconnected
      ensures head == old(head) && tail == old(tail) && stream == old(stream) && scratch == old(scratch)
    {
      clients := Ring.Connected(clients);
    }

    /**
     * `loop()`: accept, read, flush, write and clean up, in that order.
     * Afterwards no disconnected client remains. The new bytes must leave
     * every connected client within one buffer of the head for `flush()`.
     */
    method Loop(conn: Incoming, input: seq<byte>, outs: seq<Ring.WriteOutcome>, inbound: seq<Command.ReadOutcome>)
      returns (frames: seq<Parser.Frame>, offered: seq<seq<byte>>, commands: seq<seq<byte>>)
      requires Valid()
      requires |outs| == |inbound| == |clients| + (if conn.Peer? then 1 else 0)
      requires Ring.LagsWithin(clients, head + |input|, size) && |input| <= size
      modifies this, buf, parser, parser.upperBuf, parser.lowerBuf
      ensures Valid()
      ensures stream == old(stream) + input
      ensures frames == Parser.Run(old(parser.View()), input).1
      ensures forall k | 0 <= k < |clients| :: !clients[k].disconnected
    {
      ghost var cs, h, v := clients, head + |input|, parser.View();
      Accept(conn);
      assert parser.View() == v;
      if conn.Peer? {
        Ring.LagsWithinJoin(cs, clients[|cs|], h, size);
        assert clients == cs + [clients[|cs|]];
      }
      assert Ring.LagsWithin(clients, h, size);
      frames := Read(input);
      assert frames == Parser.Run(v, input).1;
      offered := Flush(outs);
      commands := Write(inbound);
      Cleanup();
    }
  }
}
