/**
 * The ring buffer's index arithmetic and the per-client bookkeeping of the
 * fan-out: `buf_index`, `buf_ahead`, the two-segment window `flush()` hands
 * to `writev`, the cursor update after a write, the recomputed `buf_tail_`,
 * and `cleanup()`. Logical positions are unbounded; `size_t` wrap-around
 * after 2^32 (or 2^64) bytes is not modelled.
 */
module Ring {
  import opened Common

  /** `read()` moves `buf_tail_` once the head gets further than this ahead of it ... */
  const LagLimit: nat := 128
  /** ... to this distance behind the head. */
  const LagResume: nat := 64

  /** Bitwise AND of two naturals, bit by bit from the least significant. */
  function BitAnd(x: nat, y: nat): (r: nat)
    ensures r <= x && r <= y
  {
    if x == 0 || y == 0 then 0
    else 2 * BitAnd(x / 2, y / 2) + (if x % 2 == 1 && y % 2 == 1 then 1 else 0)
  }

  /** Bitwise OR of two naturals. */
  function BitOr(x: nat, y: nat): (r: nat)
    ensures r + BitAnd(x, y) == x + y
  {
    if x == 0 then y
    else if y == 0 then x
    else 2 * BitOr(x / 2, y / 2) + (if x % 2 == 1 || y % 2 == 1 then 1 else 0)
  }

  predicate IsPow2(n: nat)
  {
    n == 1 || (n > 1 && n % 2 == 0 && IsPow2(n / 2))
  }

  /** `buf_index(pos) = pos & (buf_size_ - 1)`: always a slot of the storage. */
  function BufIndex(pos: nat, size: nat): (i: nat)
    requires size >= 1
    ensures i < size
  {
    BitAnd(pos, size - 1)
  }

  /** `buf_ahead(pos) = (pos | (buf_size_ - 1)) - pos + 1`. */
  function BufAhead(pos: nat, size: nat): (n: nat)
    requires size >= 1
    ensures n + BufIndex(pos, size) == size
  {
    BitOr(pos, size - 1) - pos + 1
  }

  /** Removing the lowest bit: `x % (2h)` in terms of `(x / 2) % h`. */
  lemma {:induction false} ModOfHalf(x: nat, h: nat)
    requires h >= 1
    ensures x % (2 * h) == 2 * ((x / 2) % h) + x % 2
  {
    var q, b := x / 2, x % 2;
    var t, r := q / h, q % h;
    assert x == (2 * h) * t + (2 * r + b);
    ModUnique(x, 2 * h, t, 2 * r + b);
  }

  lemma {:induction false} ModUnique(x: int, m: int, t: int, s: int)
    requires m > 0 && 0 <= s < m && x == m * t + s
    ensures x % m == s && x / m == t
  {
    var q, r := x / m, x % m;
    assert x == m * q + r;
    var k := t - q;
    assert m * k == r - s by {
      assert m * t - m * q == m * (t - q);
    }
    if k > 0 {
      assert m * k == m * (k - 1) + m;
      MulNonneg(m, k - 1);
    } else if k < 0 {
      assert m * (-k) == m * (-k - 1) + m;
      MulNonneg(m, -k - 1);
    }
  }

  lemma {:induction false} MulNonneg(a: int, b: int)
    requires a >= 0 && b >= 0
    ensures a * b >= 0
  {
  }

  /** With a power-of-two size, the mask is the remainder. */
  lemma {:induction false} MaskIsModulo(pos: nat, size: nat)
    requires IsPow2(size)
    ensures BufIndex(pos, size) == pos % size
    decreases size
  {
    if size > 1 {
      var h := size / 2;
      if pos == 0 {
        ModUnique(0, size, 0, 0);
      } else if h == 1 {
        assert BitAnd(pos, 1) == pos % 2;
      } else {
        assert (size - 1) / 2 == h - 1 && (size - 1) % 2 == 1;
        assert BitAnd(pos, size - 1) == 2 * BitAnd(pos / 2, h - 1) + pos % 2;
        MaskIsModulo(pos / 2, h);
        ModOfHalf(pos, h);
      }
    }
  }

  /** With a power-of-two size, `buf_ahead` is the distance to the physical end of storage. */
  lemma {:induction false} AheadIsDistanceToEnd(pos: nat, size: nat)
    requires IsPow2(size)
    ensures BufAhead(pos, size) == size - pos % size
  {
    MaskIsModulo(pos, size);
  }

  /** Two live positions less than `size` apart never share a slot. */
  lemma {:induction false} SlotsDistinct(i: nat, j: nat, size: nat)
    requires size >= 1 && i < j < i + size
    ensures i % size != j % size
  {
    var qi, qj := i / size, j / size;
    if i % size == j % size {
      assert j - i == size * (qj - qi) by {
        assert i == size * qi + i % size && j == size * qj + j % size;
        assert size * qj - size * qi == size * (qj - qi);
      }
      if qj - qi >= 1 {
        assert size * (qj - qi) == size * (qj - qi - 1) + size;
        MulNonneg(size, qj - qi - 1);
      } else {
        MulNonneg(size, qi - qj);
      }
      assert false;
    }
  }

  /**
   * The buffer size accepted by configuration: a power of two, so that the
   * mask is the remainder. The component's `set_buffer_size` performs no
   * such check.
   */
  function CheckedBufferSize(size: nat): (r: Option<nat>)
    ensures r.Some? <==> IsPow2(size)
    ensures r.Some? ==> r.value == size
    ensures r.Some? ==> forall pos: nat :: BufIndex(pos, size) == pos % size
  {
    if IsPow2(size) then
      MaskIsModuloEverywhere(size);
      Some(size)
    else None
  }

  lemma {:induction false} MaskIsModuloEverywhere(size: nat)
    requires IsPow2(size)
    ensures forall pos: nat :: BufIndex(pos, size) == pos % size
  {
    forall pos: nat ensures BufIndex(pos, size) == pos % size {
      MaskIsModulo(pos, size);
    }
  }

  /** `buf_size_{1024}`, the size every configuration uses. */
  const DefaultBufferSize: nat := 1024

  lemma {:induction false} DefaultBufferSizeIsValid()
    ensures CheckedBufferSize(DefaultBufferSize) == Some(DefaultBufferSize)
  {
    assert IsPow2(1024) by {
      assert IsPow2(1) && IsPow2(2) && IsPow2(4) && IsPow2(8) && IsPow2(16);
      assert IsPow2(32) && IsPow2(64) && IsPow2(128) && IsPow2(256) && IsPow2(512);
    }
  }

  /**
   * Without the power-of-two check the mask aliases: in a 3-byte buffer the
   * stream positions 0 and 1 both land in slot 0, so the second byte
   * overwrites the first while both are still unsent, and slot 1 is never used.
   */
  lemma {:induction false} MaskAliasesWithoutPow2()
    ensures !IsPow2(3)
    ensures BufIndex(0, 3) == BufIndex(1, 3) == 0
    ensures 1 % 3 == 1
  {
    assert BitAnd(1, 2) == 2 * BitAnd(0, 1) + 0;
  }

  /**
   * The two `iovec` lengths `flush()` builds for a client whose window is
   * `[pos, head)`: the first runs from the slot of `pos` towards the
   * physical end of storage, the second from slot 0.
   */
  function Segments(pos: nat, head: nat, size: nat): (seg: (nat, nat))
    requires size >= 1 && pos <= head
    ensures seg.0 + seg.1 == head - pos
    ensures BufIndex(pos, size) + seg.0 <= size
    ensures seg.1 > 0 ==> BufIndex(pos, size) + seg.0 == size
  {
    var first := Min(head - pos, BufAhead(pos, size));
    (first, head - (pos + first))
  }

  /**
   * The second segment stops short of the slot where the first one starts
   * (so no slot is sent twice) exactly when the window is at most one
   * buffer long.
   */
  lemma {:induction false} SecondSegmentFits(pos: nat, head: nat, size: nat)
    requires size >= 1 && pos <= head
    ensures Segments(pos, head, size).1 <= BufIndex(pos, size) <==> head - pos <= size
  {
  }

  /**
   * As written, nothing bounds a client's lag: a client more than
   * `size + buf_ahead(pos)` bytes behind gets a second segment longer than
   * the whole storage, so `writev` reads past the end of `buf_`.
   */
  lemma {:induction false} LaggingClientOverrunsStorage(pos: nat, head: nat, size: nat)
    requires size >= 1 && pos <= head
    requires head - pos > size + BufAhead(pos, size)
    ensures Segments(pos, head, size).1 > size
  {
  }

  /** With the default 1024-byte buffer, a client at 0 while the head is at 2049. */
  lemma {:induction false} LaggingClientExample()
    ensures Segments(0, 2049, DefaultBufferSize) == (1024, 1025)
  {
    assert BufIndex(0, 1024) == 0;
  }

  /** The storage holds the last `size` bytes of the stream, each at its slot `i % size`. */
  predicate Holds(b: seq<byte>, stream: seq<byte>, size: nat)
  {
    size >= 1 && |b| == size &&
    forall i | |stream| - Min(|stream|, size) <= i < |stream| :: b[i % size] == stream[i]
  }

  /**
   * Storing the next stream byte at the head's slot keeps the storage
   * holding the last `size` bytes: the only byte it overwrites is the one
   * exactly `size` positions back, which has just left the window.
   */
  lemma {:induction false} StoreKeepsWindow(b: seq<byte>, stream: seq<byte>, size: nat, c: byte)
    requires Holds(b, stream, size)
    ensures Holds(b[|stream| % size := c], stream + [c], size)
  {
    var head := |stream|;
    var b', s' := b[head % size := c], stream + [c];
    forall i | |s'| - Min(|s'|, size) <= i < |s'|
      ensures b'[i % size] == s'[i]
    {
      if i < head {
        SlotsDistinct(i, head, size);
      }
    }
  }

  /**
   * `buf_tail_` after `n` more bytes through the clamp in `read()`: whenever
   * the head gets more than 128 ahead of the tail, the tail jumps to 64
   * behind the head. After any append the tail is within 128 of the head.
   */
  function ClampTail(head: nat, tail: nat, n: nat): (t: nat)
    requires tail <= head
    ensures tail <= t <= head + n
    ensures head - tail <= LagLimit ==> head + n - t <= LagLimit
    ensures n > 0 ==> head + n - t <= LagLimit
  {
    if n == 0 then tail
    else
      var t := ClampTail(head, tail, n - 1);
      if head + n - t > LagLimit then head + n - LagResume else t
  }

  /**
   * For a window no longer than the buffer, the two segments read from
   * storage are exactly the stream bytes `[pos, head)`, provided the
   * storage holds the last `size` bytes of the stream at their slots.
   */
  lemma {:induction false} WindowReadsStream(b: seq<byte>, stream: seq<byte>, size: nat, pos: nat)
    requires IsPow2(size) && Holds(b, stream, size)
    requires pos <= |stream| && |stream| - pos <= size
    ensures var seg := Segments(pos, |stream|, size);
      var idx := BufIndex(pos, size);
      b[idx..idx + seg.0] + b[..seg.1] == stream[pos..]
  {
    var seg := Segments(pos, |stream|, size);
    WindowFromParts(b, stream, size, pos, BufIndex(pos, size), seg.0, seg.1);
  }

  /** The window as a first part of `m` bytes from slot `idx` and a second of `n` from slot 0. */
  lemma {:induction false} WindowFromParts(b: seq<byte>, stream: seq<byte>, size: nat, pos: nat, idx: nat, m: nat, n: nat)
    requires IsPow2(size) && Holds(b, stream, size) && idx == BufIndex(pos, size)
    requires pos <= |stream| && |stream| - pos <= size && m + n == |stream| - pos
    requires idx + m <= size && (n > 0 ==> idx + m == size)
    ensures b[idx..idx + m] + b[..n] == stream[pos..]
  {
    var w := stream[pos..];
    forall k | 0 <= k < m
      ensures b[idx + k] == w[k]
    {
      WindowByte(b, stream, size, pos, idx, k);
    }
    forall j | 0 <= j < n
      ensures b[j] == w[m + j]
    {
      WindowByte(b, stream, size, pos, idx, m + j);
    }
    TwoSlices(b, idx, m, n, w);
  }

  /** Two slices of `b` that agree with `w` index by index make up `w`. */
  lemma {:induction false} TwoSlices<T>(b: seq<T>, idx: nat, m: nat, n: nat, w: seq<T>)
    requires idx + m <= |b| && n <= |b| && |w| == m + n
    requires forall k | 0 <= k < m :: b[idx + k] == w[k]
    requires forall j | 0 <= j < n :: b[j] == w[m + j]
    ensures b[idx..idx + m] + b[..n] == w
  {
    var lhs := b[idx..idx + m] + b[..n];
    forall k | 0 <= k < |w|
      ensures lhs[k] == w[k]
    {
      if k >= m {
        assert lhs[k] == b[k - m] == w[m + (k - m)];
      }
    }
  }

  /**
   * Offset `k` of the window from `pos`, whose slot is `idx`, is read from
   * storage before or after the wrap.
   */
  lemma {:induction false} WindowByte(b: seq<byte>, stream: seq<byte>, size: nat, pos: nat, idx: nat, k: nat)
    requires IsPow2(size) && Holds(b, stream, size) && idx == BufIndex(pos, size)
    requires pos + k < |stream| && |stream| - pos <= size
    ensures idx < size
    ensures k < size - idx ==> b[idx + k] == stream[pos + k]
    ensures k >= size - idx ==> k - (size - idx) < size && b[k - (size - idx)] == stream[pos + k]
  {
    MaskIsModulo(pos, size);
    HoldsAt(b, stream, size, pos + k);
    if k < size - idx {
      SlotAhead(pos, k, size);
    } else {
      SlotAfterWrap(pos, k - (size - idx), size);
    }
  }

  lemma {:induction false} HoldsAt(b: seq<byte>, stream: seq<byte>, size: nat, i: nat)
    requires Holds(b, stream, size) && |stream| - Min(|stream|, size) <= i < |stream|
    ensures b[i % size] == stream[i]
  {
  }

  /** Within the first segment, offset `k` from `pos` is slot `pos % size + k`. */
  lemma {:induction false} SlotAhead(pos: nat, k: nat, size: nat)
    requires size >= 1 && pos % size + k < size
    ensures (pos + k) % size == pos % size + k
  {
    ModUnique(pos + k, size, pos / size, pos % size + k);
  }

  /** After the end of storage, offset `j` of the second segment is slot `j`. */
  lemma {:induction false} SlotAfterWrap(pos: nat, j: nat, size: nat)
    requires size >= 1 && j < size
    ensures (pos + (size - pos % size) + j) % size == j
  {
    var q := pos / size;
    assert pos + (size - pos % size) + j == size * (q + 1) + j by {
      assert pos == size * q + pos % size;
      assert size * (q + 1) == size * q + size;
    }
    ModUnique(pos + (size - pos % size) + j, size, q + 1, j);
  }

  /** A TCP client: its peer address, its read cursor in the stream, and whether it has gone. */
  datatype Client = Client(id: string, position: nat, disconnected: bool)

  /**
   * What `writev` did: it accepted `Min(room, requested)` bytes (0 when the
   * peer is gone), or it returned -1 with `errno` either ECONNRESET or
   * something transient such as EAGAIN.
   */
  datatype WriteOutcome = Accepts(room: nat) | Fails(reset: bool)

  /** `flush()` writes to a client only if it is connected and behind the head. */
  predicate Pending(c: Client, head: nat)
  {
    !c.disconnected && c.position != head
  }

  /** The value `writev` returns for a request of `requested` bytes. */
  function Written(requested: nat, out: WriteOutcome): (n: int)
    ensures -1 <= n <= requested
  {
    match out
    case Accepts(room) => Min(room, requested)
    case Fails(_) => -1
  }

  /**
   * What `flush()` offers `c` to write: if it is pending, everything it has
   * not been sent yet, from its cursor to the head; otherwise nothing.
   */
  function Offer(c: Client, stream: seq<byte>): (w: seq<byte>)
    requires c.position <= |stream|
    ensures Pending(c, |stream|) ==> stream[..c.position] + w == stream && w != []
    ensures !Pending(c, |stream|) ==> w == []
  {
    if Pending(c, |stream|) then stream[c.position..] else []
  }

  /**
   * One client's turn in `flush()`: a client that is disconnected or at the
   * head is left alone; otherwise its cursor advances by exactly what
   * `writev` accepted (and stays put on -1), and a zero-byte write or a
   * reset marks it gone.
   */
  function Serve(c: Client, head: nat, out: WriteOutcome): (d: Client)
    requires c.position <= head
    ensures d.id == c.id && c.position <= d.position <= head
    ensures !Pending(c, head) ==> d == c
    ensures Pending(c, head) ==>
      var n := Written(head - c.position, out);
      (n > 0 ==> d.position == c.position + n && !d.disconnected) &&
      (n <= 0 ==> d.position == c.position) &&
      (d.disconnected <==> n == 0 || out == Fails(true))
  {
    if !Pending(c, head) then c
    else
      var n := Written(head - c.position, out);
      if n > 0 then c.(position := c.position + n)
      else if n == 0 || out == Fails(true) then c.(disconnected := true)
      else c
  }

  /**
   * A client 500 bytes behind is served from its own cursor: a write that
   * takes 10 bytes moves it to 10, EAGAIN leaves it at 0, and a reset marks
   * it gone where it is.
   */
  lemma {:induction false} ServeFromOwnCursor()
    ensures Offer(Client("a", 0, false), seq(500, _ => 0)) == seq(500, _ => 0)
    ensures Serve(Client("a", 0, false), 500, Accepts(10)) == Client("a", 10, false)
    ensures Serve(Client("a", 0, false), 500, Fails(false)) == Client("a", 0, false)
    ensures Serve(Client("a", 0, false), 500, Fails(true)) == Client("a", 0, true)
  {
    var s: seq<byte> := seq(500, _ => 0);
    assert s[0..] == s;
  }

  /**
   * Every connected client is at most `bound` bytes behind the head. With
   * `bound` the buffer size this is what `flush()` needs for its window to
   * be the unsent stream; the component itself never enforces it.
   */
  predicate LagsWithin(cs: seq<Client>, head: nat, bound: nat)
  {
    forall k | 0 <= k < |cs| && !cs[k].disconnected :: head - cs[k].position <= bound
  }

  /** A client close enough to the head joins a list within the bound. */
  lemma {:induction false} LagsWithinJoin(cs: seq<Client>, c: Client, head: nat, bound: nat)
    requires LagsWithin(cs, head, bound) && head - c.position <= bound
    ensures LagsWithin(cs + [c], head, bound)
  {
    forall k | 0 <= k < |cs| + 1 && !(cs + [c])[k].disconnected
      ensures head - (cs + [c])[k].position <= bound
    {
      if k < |cs| {
        assert (cs + [c])[k] == cs[k];
      }
    }
  }

  /**
   * A corrected lag bound: a client more than half the buffer behind the
   * head has its cursor moved forward to half the buffer behind.
   */
  function SkipLagging(position: nat, head: nat, size: nat): (p: nat)
    requires position <= head
    ensures position <= p <= head && head - p <= size / 2
    ensures head - position <= size / 2 ==> p == position
    ensures head - position > size / 2 ==> p == head - size / 2
  {
    if head - position > size / 2 then head - size / 2 else position
  }

  /**
   * With the skip, whatever a client's lag, the two segments never run past
   * the storage and read exactly the stream from the skipped cursor.
   */
  lemma {:induction false} SkippedWindowReadsStream(b: seq<byte>, stream: seq<byte>, size: nat, pos: nat)
    requires IsPow2(size) && Holds(b, stream, size) && pos <= |stream|
    ensures var p := SkipLagging(pos, |stream|, size);
      var seg := Segments(p, |stream|, size);
      var idx := BufIndex(p, size);
      seg.1 <= idx && b[idx..idx + seg.0] + b[..seg.1] == stream[p..]
  {
    var p := SkipLagging(pos, |stream|, size);
    SecondSegmentFits(p, |stream|, size);
    WindowReadsStream(b, stream, size, p);
  }

  predicate CursorsWithin(cs: seq<Client>, head: nat)
  {
    forall k | 0 <= k < |cs| :: cs[k].position <= head
  }

  /** The client list after `flush()`. */
  function FlushAll(cs: seq<Client>, head: nat, outs: seq<WriteOutcome>): (r: seq<Client>)
    requires |outs| == |cs| && CursorsWithin(cs, head)
    ensures |r| == |cs| && CursorsWithin(r, head)
    ensures forall k | 0 <= k < |cs| :: r[k] == Serve(cs[k], head, outs[k])
  {
    seq(|cs|, k requires 0 <= k < |cs| => Serve(cs[k], head, outs[k]))
  }

  /** The client list after the first `n` turns of `flush()`. */
  function Flushed(cs: seq<Client>, head: nat, outs: seq<WriteOutcome>, n: nat): seq<Client>
    requires |outs| == |cs| && CursorsWithin(cs, head) && n <= |cs|
  {
    seq(|cs|, k requires 0 <= k < |cs| => if k < n then Serve(cs[k], head, outs[k]) else cs[k])
  }

  lemma {:induction false} FlushedStep(cs: seq<Client>, head: nat, outs: seq<WriteOutcome>, n: nat)
    requires |outs| == |cs| && CursorsWithin(cs, head) && n < |cs|
    ensures Flushed(cs, head, outs, n)[n := Serve(cs[n], head, outs[n])] == Flushed(cs, head, outs, n + 1)
  {
  }

  lemma {:induction false} FlushedAll(cs: seq<Client>, head: nat, outs: seq<WriteOutcome>)
    requires |outs| == |cs| && CursorsWithin(cs, head)
    ensures Flushed(cs, head, outs, |cs|) == FlushAll(cs, head, outs)
  {
  }

  /** What the first `n` turns of `flush()` offered. */
  function Offers(cs: seq<Client>, stream: seq<byte>, n: nat): seq<seq<byte>>
    requires CursorsWithin(cs, |stream|) && n <= |cs|
  {
    seq(n, k requires 0 <= k < n => Offer(cs[k], stream))
  }

  lemma {:induction false} OffersStep(cs: seq<Client>, stream: seq<byte>, n: nat)
    requires CursorsWithin(cs, |stream|) && n < |cs|
    ensures Offers(cs, stream, n) + [Offer(cs[n], stream)] == Offers(cs, stream, n + 1)
  {
  }

  /**
   * `buf_tail_` after the first `n` turns of `flush()`: the head, lowered to
   * the post-write cursor of every client that was written to.
   */
  function TailUpTo(cs: seq<Client>, head: nat, outs: seq<WriteOutcome>, n: nat): (t: nat)
    requires |outs| == |cs| && CursorsWithin(cs, head) && n <= |cs|
    ensures t <= head
  {
    if n == 0 then head
    else
      var t := TailUpTo(cs, head, outs, n - 1);
      if Pending(cs[n - 1], head) then Min(t, Serve(cs[n - 1], head, outs[n - 1]).position) else t
  }

  /**
   * The tail `flush()` leaves is the lowest cursor among the clients it
   * wrote to: no such cursor is below it, and it is one of them unless it
   * is the head.
   */
  lemma {:induction false} TailIsLowestServed(cs: seq<Client>, head: nat, outs: seq<WriteOutcome>, n: nat)
    requires |outs| == |cs| && CursorsWithin(cs, head) && n <= |cs|
    ensures var t := TailUpTo(cs, head, outs, n);
      (forall k | 0 <= k < n && Pending(cs[k], head) :: t <= Serve(cs[k], head, outs[k]).position) &&
      (t == head || exists k | 0 <= k < n && Pending(cs[k], head) :: t == Serve(cs[k], head, outs[k]).position)
  {
    if n > 0 {
      TailIsLowestServed(cs, head, outs, n - 1);
    }
  }

  /** `cleanup()`: the clients not marked disconnected, in their original order. */
  function Connected(cs: seq<Client>): (r: seq<Client>)
    ensures |r| <= |cs|
    ensures forall c :: c in r <==> c in cs && !c.disconnected
  {
    if cs == [] then []
    else (if cs[0].disconnected then [] else [cs[0]]) + Connected(cs[1..])
  }

  /** Cleanup preserves order: it filters each part of the list independently. */
  lemma {:induction false} ConnectedKeepsOrder(a: seq<Client>, b: seq<Client>)
    ensures Connected(a + b) == Connected(a) + Connected(b)
  {
    if a != [] {
      assert (a + b)[1..] == a[1..] + b;
      ConnectedKeepsOrder(a[1..], b);
    } else {
      assert a + b == b;
    }
  }
}
