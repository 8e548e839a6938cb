/**
 * The MPSEND frame parser of `process_byte_`: a seven-state machine fed one
 * UART byte at a time. It matches the signature "MPSEND", waits for the meta
 * byte 0x32, reads a 14-byte upper field after 0xF0 and a 14-byte lower
 * field after 0xF1, and publishes both (trimmed) on 0xF2, together with
 * the volume reading of the lower field.
 */
module Parser {
  import opened Common
  import Text
  import Volume

  datatype Phase = WaitMpsend | WaitMeta | WaitF0 | ReadUpper | WaitF1 | ReadLower | WaitF2

  /** "MPSEND" */
  const Sig: seq<byte> := [0x4D, 0x50, 0x53, 0x45, 0x4E, 0x44]
  const Meta: byte := 0x32
  const UpperStart: byte := 0xF0
  const LowerStart: byte := 0xF1
  const FrameEnd: byte := 0xF2
  /** Width of each text field; the buffers hold one more char for the NUL. */
  const FieldWidth: nat := 14

  /** What the parser publishes on a complete frame. */
  datatype Frame = Frame(upper: string, lower: string, volume: Option<int>)

  /** The parser's fields: state, signature cursor, field cursor, both 15-char buffers. */
  datatype PState = PState(phase: Phase, sigPos: nat, textPos: nat, upper: seq<char>, lower: seq<char>)

  /** A field buffer once its 14 characters are in: no NUL before index 14, a NUL at 14. */
  predicate Terminated(a: seq<char>)
  {
    |a| == FieldWidth + 1 && a[FieldWidth] == '\0' && NulFree(a, FieldWidth)
  }

  /** No NUL among the first `n` characters. */
  predicate NulFree(a: seq<char>, n: nat)
  {
    n <= |a| && forall k | 0 <= k < n :: a[k] != '\0'
  }

  /**
   * The parser's invariant: the signature cursor stays below 6 (and is 0
   * outside signature matching), the field cursor stays below 14 while a
   * field is read, and a field that has been read is NUL-terminated.
   */
  predicate Good(s: PState)
  {
    |s.upper| == FieldWidth + 1 && |s.lower| == FieldWidth + 1 &&
    s.sigPos < |Sig| && (s.phase != WaitMpsend ==> s.sigPos == 0) &&
    (s.phase.ReadUpper? ==> s.textPos < FieldWidth && NulFree(s.upper, s.textPos)) &&
    (s.phase.ReadLower? ==> s.textPos < FieldWidth && NulFree(s.lower, s.textPos)) &&
    (s.phase.WaitF1? || s.phase.ReadLower? || s.phase.WaitF2? ==> Terminated(s.upper)) &&
    (s.phase.WaitF2? ==> Terminated(s.lower))
  }

  function Events(e: Option<Frame>): seq<Frame>
  {
    if e.Some? then [e.value] else []
  }

  /** The frame published from two completed field buffers. */
  function Publish(upper: seq<char>, lower: seq<char>): Frame
  {
    var u := Text.Trim(Text.CString(upper));
    var l := Text.Trim(Text.CString(lower));
    Frame(u, l, Volume.ParseVolume(l))
  }

  /** A printable character written at the field cursor keeps the field NUL-free up to the cursor. */
  lemma {:induction false} FieldWrite(a: seq<char>, n: nat, ch: char)
    requires |a| == FieldWidth + 1 && n < FieldWidth && NulFree(a, n) && ch != '\0'
    ensures NulFree(a[n := ch], n + 1)
    ensures n + 1 == FieldWidth ==> Terminated(a[n := ch][FieldWidth := '\0'])
  {
  }

  /** `process_byte_(c)`: the next parser state, and the frame it publishes, if any. */
  function Step(s: PState, c: byte): (r: (PState, Option<Frame>))
    requires Good(s)
    ensures Good(r.0)
    ensures r.1.Some? <==> s.phase == WaitF2 && c == FrameEnd
  {
    match s.phase
    case WaitMpsend =>
      if c == Sig[s.sigPos] then
        if s.sigPos + 1 == |Sig| then (s.(sigPos := 0, phase := WaitMeta), None)
        else (s.(sigPos := s.sigPos + 1), None)
      else (s.(sigPos := 0), None)
    case WaitMeta =>
      if c == Meta then (s.(phase := WaitF0), None) else (s, None)
    case WaitF0 =>
      if c == UpperStart then (s.(textPos := 0, phase := ReadUpper), None) else (s, None)
    case ReadUpper =>
      var u := s.upper[s.textPos := Text.Print(c)];
      FieldWrite(s.upper, s.textPos, Text.Print(c));
      if s.textPos + 1 == FieldWidth then
        (s.(upper := u[FieldWidth := '\0'], textPos := FieldWidth, phase := WaitF1), None)
      else (s.(upper := u, textPos := s.textPos + 1), None)
    case WaitF1 =>
      if c == LowerStart then (s.(textPos := 0, phase := ReadLower), None) else (s, None)
    case ReadLower =>
      var l := s.lower[s.textPos := Text.Print(c)];
      FieldWrite(s.lower, s.textPos, Text.Print(c));
      if s.textPos + 1 == FieldWidth then
        (s.(lower := l[FieldWidth := '\0'], textPos := FieldWidth, phase := WaitF2), None)
      else (s.(lower := l, textPos := s.textPos + 1), None)
    case WaitF2 =>
      if c == FrameEnd then (s.(phase := WaitMpsend), Some(Publish(s.upper, s.lower))) else (s, None)
  }

  /** The parser fed a whole byte sequence, with every frame it publishes, in order. */
  function Run(s: PState, bytes: seq<byte>): (r: (PState, seq<Frame>))
    requires Good(s)
    ensures Good(r.0)
    decreases |bytes|
  {
    if bytes == [] then (s, [])
    else
      var prev := Run(s, bytes[..|bytes| - 1]);
      var next := Step(prev.0, bytes[|bytes| - 1]);
      (next.0, prev.1 + Events(next.1))
  }

  /** Feeding `xs` then `ys` is feeding `xs + ys`. */
  lemma {:induction false} RunAppend(s: PState, xs: seq<byte>, ys: seq<byte>)
    requires Good(s)
    ensures var a := Run(s, xs); var b := Run(a.0, ys);
      Run(s, xs + ys) == (b.0, a.1 + b.1)
    decreases |ys|
  {
    var a := Run(s, xs);
    if ys == [] {
      assert xs + ys == xs;
      assert Run(a.0, ys) == (a.0, []);
      assert a.1 + [] == a.1;
    } else {
      var init, c := ys[..|ys| - 1], ys[|ys| - 1];
      assert (xs + ys)[..|xs + ys| - 1] == xs + init;
      assert (xs + ys)[|xs + ys| - 1] == c;
      RunAppend(s, xs, init);
      AppendTrace(Run(s, xs + ys), Run(s, xs + init), Run(a.0, ys), a.1,
                  Run(a.0, init), Step(Run(s, xs + init).0, c), Step(Run(a.0, init).0, c));
    }
  }

  /**
   * The bookkeeping of one more byte after `xs + init`, seen from both ends.
   * This and the other `...Trace` lemmas below state a run's result as a
   * tuple equation over plain tuple parameters: the step they take is only
   * sequence associativity, but kept away from the definitions of `Run`
   * and `Step` it stays cheap for the solver, where inline it does not.
   */
  lemma {:induction false} AppendTrace(r: (PState, seq<Frame>), ri: (PState, seq<Frame>), b: (PState, seq<Frame>), a1: seq<Frame>,
                    m: (PState, seq<Frame>), sn: (PState, Option<Frame>), n: (PState, Option<Frame>))
    requires r == (sn.0, ri.1 + Events(sn.1)) && ri == (m.0, a1 + m.1) && sn == n
    requires b == (n.0, m.1 + Events(n.1))
    ensures r == (b.0, a1 + b.1)
  {
    assert (a1 + m.1) + Events(n.1) == a1 + (m.1 + Events(n.1));
  }

  /** Feeding one more byte is one more step. */
  lemma {:induction false} RunSnoc(s: PState, xs: seq<byte>, c: byte)
    requires Good(s)
    ensures var a := Run(s, xs); var n := Step(a.0, c);
      Run(s, xs + [c]) == (n.0, a.1 + Events(n.1))
  {
    assert (xs + [c])[..|xs|] == xs;
  }

  /** From the state and frames of a run, one more byte is one more step. */
  lemma {:induction false} RunStep(s: PState, xs: seq<byte>, c: byte, t: PState, es: seq<Frame>)
    requires Good(s) && Run(s, xs) == (t, es)
    ensures Good(t) && Run(s, xs + [c]) == (Step(t, c).0, es + Events(Step(t, c).1))
  {
    RunSnoc(s, xs, c);
  }

  /** One more byte that publishes nothing: the frames so far are unchanged. */
  lemma {:induction false} RunSnocQuiet(s: PState, xs: seq<byte>, c: byte, t: PState, es: seq<Frame>, u: PState)
    requires Good(s) && Run(s, xs) == (t, es)
    requires Good(t) && Step(t, c) == (u, None)
    ensures Run(s, xs + [c]) == (u, es)
  {
    RunSnoc(s, xs, c);
    QuietTrace(Run(s, xs), Step(t, c), Run(s, xs + [c]), t, es, u);
  }

  /** A quiet step on the last byte, stated over the run's own split of `xs`. */
  lemma {:induction false} RunLastQuiet(s: PState, xs: seq<byte>, t: PState, es: seq<Frame>, u: PState)
    requires Good(s) && xs != [] && Run(s, xs[..|xs| - 1]) == (t, es)
    requires Good(t) && Step(t, xs[|xs| - 1]) == (u, None)
    ensures Run(s, xs) == (u, es)
  {
    var init, c := xs[..|xs| - 1], xs[|xs| - 1];
    assert xs == init + [c];
    RunSnocQuiet(s, init, c, t, es, u);
  }

  /** The bookkeeping of `RunSnocQuiet`, kept apart from `Run` and `Step`. */
  lemma {:induction false} QuietTrace(a: (PState, seq<Frame>), n: (PState, Option<Frame>), r: (PState, seq<Frame>),
                   t: PState, es: seq<Frame>, u: PState)
    requires r == (n.0, a.1 + Events(n.1)) && a == (t, es) && n == (u, None)
    ensures r == (u, es)
  {
    assert es + [] == es;
  }

  /** Extending a sequence by one element extends each of its suffixes by that element. */
  lemma {:induction false} SuffixSnoc<T>(init: seq<T>, c: T, k: nat)
    requires k <= |init|
    ensures (init + [c])[|init| - k..] == init[|init| - k..] + [c]
  {
  }

  /** A parser at rest: waiting for a signature with nothing of it matched. */
  predicate Idle(s: PState)
  {
    Good(s) && s.phase == WaitMpsend && s.sigPos == 0
  }

  /**
   * While matching the signature, the signature cursor counts exactly the
   * signature bytes just seen: the last `sigPos` bytes fed are "MPSEND"[..sigPos].
   */
  lemma {:induction false} SigPosIsMatchedSuffix(s: PState, xs: seq<byte>)
    requires Good(s) && s.sigPos == 0
    ensures var t := Run(s, xs).0;
      t.sigPos <= |xs| && xs[|xs| - t.sigPos..] == Sig[..t.sigPos]
    decreases |xs|
  {
    if xs != [] {
      SigPosIsMatchedSuffix(s, xs[..|xs| - 1]);
      MatchedSuffixByte(Run(s, xs[..|xs| - 1]).0, xs);
    }
  }

  /** One byte keeps the signature cursor counting the signature bytes just seen. */
  lemma {:induction false} MatchedSuffixByte(p: PState, xs: seq<byte>)
    requires Good(p) && xs != []
    requires var init := xs[..|xs| - 1];
      p.sigPos <= |init| && init[|init| - p.sigPos..] == Sig[..p.sigPos]
    ensures var t := Step(p, xs[|xs| - 1]).0;
      t.sigPos <= |xs| && xs[|xs| - t.sigPos..] == Sig[..t.sigPos]
  {
    var init, c := xs[..|xs| - 1], xs[|xs| - 1];
    SigPosStep(p, c);
    if p.phase == WaitMpsend && c == Sig[p.sigPos] && p.sigPos + 1 < |Sig| {
      assert xs == init + [c];
      SuffixSnoc(init, c, p.sigPos);
      assert Sig[..p.sigPos + 1] == Sig[..p.sigPos] + [Sig[p.sigPos]];
    }
  }

  /** How one byte moves the signature cursor. */
  lemma {:induction false} SigPosStep(p: PState, c: byte)
    requires Good(p)
    ensures Step(p, c).0.sigPos ==
      if p.phase == WaitMpsend && c == Sig[p.sigPos] && p.sigPos + 1 < |Sig| then p.sigPos + 1 else 0
    ensures Step(p, c).0.phase == WaitMeta && p.phase == WaitMpsend ==>
      p.sigPos == |Sig| - 1 && c == Sig[|Sig| - 1]
  {
  }

  /**
   * The parser leaves signature matching for the meta wait only on a byte
   * that completes six consecutive bytes "MPSEND".
   */
  lemma {:induction false} SignatureOnlyAfterMpsend(s: PState, xs: seq<byte>, c: byte)
    requires Good(s) && s.sigPos == 0
    requires Run(s, xs).0.phase == WaitMpsend
    requires Run(s, xs + [c]).0.phase == WaitMeta
    ensures |xs| >= |Sig| - 1 && xs[|xs| - (|Sig| - 1)..] + [c] == Sig
  {
    var p := Run(s, xs).0;
    SigPosIsMatchedSuffix(s, xs);
    RunSnoc(s, xs, c);
    SigPosStep(p, c);
    assert p.sigPos == 5 && c == Sig[5];
    assert Sig == Sig[..5] + [Sig[5]];
  }

  /** The first `k` signature bytes take a parser at rest to cursor `k`, publishing nothing. */
  lemma {:induction false} SignaturePrefix(s: PState, k: nat)
    requires Idle(s) && k < |Sig|
    ensures Run(s, Sig[..k]) == (s.(sigPos := k), [])
  {
    if k > 0 {
      SignaturePrefix(s, k - 1);
      assert Sig[..k] == Sig[..k - 1] + [Sig[k - 1]];
      RunSnocQuiet(s, Sig[..k - 1], Sig[k - 1], s.(sigPos := k - 1), [], s.(sigPos := k));
    }
  }

  /** "MPSEND" takes a parser at rest to the meta wait, publishing nothing. */
  lemma {:induction false} SignatureRecognised(s: PState)
    requires Idle(s)
    ensures Run(s, Sig) == (s.(phase := WaitMeta), [])
  {
    SignaturePrefix(s, 5);
    assert Sig == Sig[..5] + [Sig[5]];
    RunSnocQuiet(s, Sig[..5], Sig[5], s.(sigPos := 5), [], s.(phase := WaitMeta));
  }

  /** Bytes other than 'M' leave a parser at rest where it is. */
  lemma {:induction false} NonStartersIgnored(s: PState, xs: seq<byte>)
    requires Idle(s)
    requires forall k | 0 <= k < |xs| :: xs[k] != Sig[0]
    ensures Run(s, xs) == (s, [])
    decreases |xs|
  {
    if xs != [] {
      var init := xs[..|xs| - 1];
      NonStartersIgnored(s, init);
      assert xs == init + [xs[|xs| - 1]];
      RunSnocQuiet(s, init, xs[|xs| - 1], s, [], s);
    }
  }

  /**
   * A mismatch restarts matching without re-testing the byte: after "MMPSEND"
   * a parser at rest is still at rest (the second 'M' only cancels the first).
   */
  lemma {:induction false} DoubledLetterNotRecognised(s: PState)
    requires Idle(s)
    ensures Run(s, [0x4D] + Sig) == (s, [])
  {
    assert [0x4D] + Sig == [0x4D, 0x4D] + Sig[1..];
    DoubledLetterCancels(s);
    NonStartersIgnored(s, Sig[1..]);
    RunAppend(s, [0x4D, 0x4D], Sig[1..]);
    RestTrace(Run(s, [0x4D, 0x4D]), Run(s, Sig[1..]), Run(s, [0x4D] + Sig), s);
  }

  /** "MM" leaves a parser at rest where it is. */
  lemma {:induction false} DoubledLetterCancels(s: PState)
    requires Idle(s)
    ensures Run(s, [0x4D, 0x4D]) == (s, [])
  {
    assert Run(s, []) == (s, []);
    RunSnocQuiet(s, [], 0x4D, s, [], s.(sigPos := 1));
    assert [] + [0x4D] == [0x4D];
    RunSnocQuiet(s, [0x4D], 0x4D, s.(sigPos := 1), [], s);
    assert [0x4D] + [0x4D] == [0x4D, 0x4D];
  }

  /** The bookkeeping of two runs that both end at rest with no frame. */
  lemma {:induction false} RestTrace(a: (PState, seq<Frame>), b: (PState, seq<Frame>), r: (PState, seq<Frame>), s: PState)
    requires a == (s, []) && b == (s, []) && r == (b.0, a.1 + b.1)
    ensures r == (s, [])
  {
    assert a.1 + b.1 == [];
  }

  /** Overwriting the first character after a prefix `r` extends the prefix. */
  lemma {:induction false} WriteAfter(r: seq<char>, rest: seq<char>, x: char)
    requires |rest| >= 1
    ensures (r + rest)[|r| := x] == r + [x] + rest[1..]
  {
  }

  /**
   * While the upper field is read, the first `textPos` characters of the
   * upper buffer are the printable renderings of the bytes read so far, and
   * the rest of the buffer is untouched.
   */
  lemma {:induction false} UpperPrefix(t: PState, xs: seq<byte>)
    requires Good(t) && t.phase == ReadUpper && t.textPos == 0 && |xs| < FieldWidth
    ensures Run(t, xs) == (t.(textPos := |xs|, upper := Text.Render(xs) + t.upper[|xs|..]), [])
    decreases |xs|
  {
    if xs == [] {
      assert Text.Render(xs) + t.upper[0..] == t.upper;
    } else {
      var k := |xs| - 1;
      UpperStep(t, xs);
      UpperPrefix(t, xs[..k]);
      RunLastQuiet(t, xs, t.(textPos := k, upper := Text.Render(xs[..k]) + t.upper[k..]), [],
                   t.(textPos := k + 1, upper := Text.Render(xs) + t.upper[k + 1..]));
    }
  }

  /** The step of `UpperPrefix` for the last byte of `xs`, apart from any run. */
  lemma {:induction false} UpperStep(t: PState, xs: seq<byte>)
    requires Good(t) && t.phase == ReadUpper && t.textPos == 0 && 0 < |xs| < FieldWidth
    ensures var k := |xs| - 1;
      var p := t.(textPos := k, upper := Text.Render(xs[..k]) + t.upper[k..]);
      Good(p) && Step(p, xs[k]) == (t.(textPos := k + 1, upper := Text.Render(xs) + t.upper[k + 1..]), None)
  {
    var k := |xs| - 1;
    var init, c := xs[..k], xs[k];
    assert Text.Render(init) + [Text.Print(c)] == Text.Render(xs);
    WriteAfter(Text.Render(init), t.upper[k..], Text.Print(c));
    assert t.upper[k..][1..] == t.upper[k + 1..];
  }

  /** The 14 bytes of the upper field leave their rendering, NUL-terminated, in the upper buffer. */
  lemma {:induction false} UpperField(t: PState, u: seq<byte>)
    requires Good(t) && t.phase == ReadUpper && t.textPos == 0 && |u| == FieldWidth
    ensures Run(t, u) == (t.(phase := WaitF1, textPos := FieldWidth, upper := Text.Render(u) + ['\0']), [])
  {
    var init, c := u[..FieldWidth - 1], u[FieldWidth - 1];
    UpperPrefix(t, init);
    var p := t.(textPos := FieldWidth - 1, upper := Text.Render(init) + t.upper[FieldWidth - 1..]);
    var q := t.(phase := WaitF1, textPos := FieldWidth, upper := Text.Render(u) + ['\0']);
    WriteAfter(Text.Render(init), t.upper[FieldWidth - 1..], Text.Print(c));
    assert Text.Render(init) + [Text.Print(c)] == Text.Render(u);
    WriteAfter(Text.Render(u), t.upper[FieldWidth..], '\0');
    assert Text.Render(u) + ['\0'] + t.upper[FieldWidth + 1..] == Text.Render(u) + ['\0'];
    assert Step(p, c) == (q, None);
    assert u == init + [c];
    RunSnocQuiet(t, init, c, p, [], q);
  }

  /** The lower-field counterpart of `UpperPrefix`. */
  lemma {:induction false} LowerPrefix(t: PState, xs: seq<byte>)
    requires Good(t) && t.phase == ReadLower && t.textPos == 0 && |xs| < FieldWidth
    ensures Run(t, xs) == (t.(textPos := |xs|, lower := Text.Render(xs) + t.lower[|xs|..]), [])
    decreases |xs|
  {
    if xs == [] {
      assert Text.Render(xs) + t.lower[0..] == t.lower;
    } else {
      var k := |xs| - 1;
      LowerStep(t, xs);
      LowerPrefix(t, xs[..k]);
      RunLastQuiet(t, xs, t.(textPos := k, lower := Text.Render(xs[..k]) + t.lower[k..]), [],
                   t.(textPos := k + 1, lower := Text.Render(xs) + t.lower[k + 1..]));
    }
  }

  /** The step of `LowerPrefix` for the last byte of `xs`, apart from any run. */
  lemma {:induction false} LowerStep(t: PState, xs: seq<byte>)
    requires Good(t) && t.phase == ReadLower && t.textPos == 0 && 0 < |xs| < FieldWidth
    ensures var k := |xs| - 1;
      var p := t.(textPos := k, lower := Text.Render(xs[..k]) + t.lower[k..]);
      Good(p) && Step(p, xs[k]) == (t.(textPos := k + 1, lower := Text.Render(xs) + t.lower[k + 1..]), None)
  {
    var k := |xs| - 1;
    var init, c := xs[..k], xs[k];
    assert Text.Render(init) + [Text.Print(c)] == Text.Render(xs);
    WriteAfter(Text.Render(init), t.lower[k..], Text.Print(c));
    assert t.lower[k..][1..] == t.lower[k + 1..];
  }

  /** The 14 bytes of the lower field leave their rendering, NUL-terminated, in the lower buffer. */
  lemma {:induction false} LowerField(t: PState, l: seq<byte>)
    requires Good(t) && t.phase == ReadLower && t.textPos == 0 && |l| == FieldWidth
    ensures Run(t, l) == (t.(phase := WaitF2, textPos := FieldWidth, lower := Text.Render(l) + ['\0']), [])
  {
    var init, c := l[..FieldWidth - 1], l[FieldWidth - 1];
    LowerPrefix(t, init);
    var p := t.(textPos := FieldWidth - 1, lower := Text.Render(init) + t.lower[FieldWidth - 1..]);
    var q := t.(phase := WaitF2, textPos := FieldWidth, lower := Text.Render(l) + ['\0']);
    WriteAfter(Text.Render(init), t.lower[FieldWidth - 1..], Text.Print(c));
    assert Text.Render(init) + [Text.Print(c)] == Text.Render(l);
    WriteAfter(Text.Render(l), t.lower[FieldWidth..], '\0');
    assert Text.Render(l) + ['\0'] + t.lower[FieldWidth + 1..] == Text.Render(l) + ['\0'];
    assert Step(p, c) == (q, None);
    assert l == init + [c];
    RunSnocQuiet(t, init, c, p, [], q);
  }

  /** A run that publishes nothing, followed by a run from where it ends, is one run. */
  lemma {:induction false} Chain(s: PState, xs: seq<byte>, ys: seq<byte>, t: PState, u: PState, fs: seq<Frame>)
    requires Good(s) && Run(s, xs) == (t, [])
    requires Good(t) && Run(t, ys) == (u, fs)
    ensures Run(s, xs + ys) == (u, fs)
  {
    RunAppend(s, xs, ys);
    ChainTrace(Run(s, xs), Run(t, ys), Run(s, xs + ys), t, u, fs);
  }

  /** The bookkeeping of `Chain`, kept apart from `Run`. */
  lemma {:induction false} ChainTrace(a: (PState, seq<Frame>), b: (PState, seq<Frame>), r: (PState, seq<Frame>),
                   t: PState, u: PState, fs: seq<Frame>)
    requires a == (t, []) && b == (u, fs) && r == (b.0, a.1 + b.1)
    ensures r == (u, fs)
  {
    assert [] + fs == fs;
  }

  /** A run of one byte is one step. */
  lemma {:induction false} RunOne(t: PState, c: byte, u: PState, e: Option<Frame>)
    requires Good(t) && Step(t, c) == (u, e)
    ensures Run(t, [c]) == (u, Events(e))
  {
    RunSnoc(t, [], c);
    assert [] + [c] == [c];
    OneTrace(Run(t, []), Step(t, c), Run(t, [c]), t, u, e);
  }

  /** The bookkeeping of `RunOne`, kept apart from `Run` and `Step`. */
  lemma {:induction false} OneTrace(a: (PState, seq<Frame>), n: (PState, Option<Frame>), r: (PState, seq<Frame>),
                 t: PState, u: PState, e: Option<Frame>)
    requires a == (t, []) && n == (u, e) && r == (n.0, a.1 + Events(n.1))
    ensures r == (u, Events(e))
  {
    assert [] + Events(e) == Events(e);
  }

  /**
   * A complete frame — "MPSEND", the meta byte, 0xF0, 14 upper bytes, 0xF1,
   * 14 lower bytes, 0xF2 — takes a parser at rest back to rest and publishes
   * exactly one frame: both fields rendered printable and trimmed, and the
   * volume read from the lower one.
   */
  lemma {:induction false} CompleteFrame(s: PState, u: seq<byte>, l: seq<byte>)
    requires Idle(s) && |u| == FieldWidth && |l| == FieldWidth
    ensures var upper, lower := Text.Render(u) + ['\0'], Text.Render(l) + ['\0'];
      Run(s, Sig + [Meta, UpperStart] + (u + [LowerStart] + l) + [FrameEnd]) ==
        (PState(WaitMpsend, 0, FieldWidth, upper, lower),
         [Frame(Text.Trim(Text.Render(u)), Text.Trim(Text.Render(l)), Volume.ParseVolume(Text.Trim(Text.Render(l))))])
  {
    FrameRun(s, u, l);
    PublishRendered(u, l);
  }

  /** The run of a complete frame, with the frame left as `Publish` of the two buffers. */
  lemma {:induction false} FrameRun(s: PState, u: seq<byte>, l: seq<byte>)
    requires Idle(s) && |u| == FieldWidth && |l| == FieldWidth
    ensures var upper, lower := Text.Render(u) + ['\0'], Text.Render(l) + ['\0'];
      Run(s, Sig + [Meta, UpperStart] + (u + [LowerStart] + l) + [FrameEnd]) ==
        (PState(WaitMpsend, 0, FieldWidth, upper, lower), [Publish(upper, lower)])
  {
    FrameBody(s, u, l);
    EndsFrame(s, Sig + [Meta, UpperStart] + (u + [LowerStart] + l),
      s.(phase := WaitF2, textPos := FieldWidth, upper := Text.Render(u) + ['\0'], lower := Text.Render(l) + ['\0']));
  }

  /** A run that ends in the end wait without publishing, followed by 0xF2, publishes one frame. */
  lemma {:induction false} EndsFrame(s: PState, body: seq<byte>, t: PState)
    requires Good(s) && Run(s, body) == (t, []) && Good(t) && t.phase == WaitF2
    ensures Run(s, body + [FrameEnd]) == (t.(phase := WaitMpsend), [Publish(t.upper, t.lower)])
  {
    FrameEndPublishes(t);
    Chain(s, body, [FrameEnd], t, t.(phase := WaitMpsend), [Publish(t.upper, t.lower)]);
  }

  /** Everything of a complete frame but its last byte takes a parser at rest to the end wait. */
  lemma {:induction false} FrameBody(s: PState, u: seq<byte>, l: seq<byte>)
    requires Idle(s) && |u| == FieldWidth && |l| == FieldWidth
    ensures Run(s, Sig + [Meta, UpperStart] + (u + [LowerStart] + l)) ==
      (s.(phase := WaitF2, textPos := FieldWidth, upper := Text.Render(u) + ['\0'], lower := Text.Render(l) + ['\0']), [])
  {
    var s3 := s.(textPos := 0, phase := ReadUpper);
    FrameHeader(s);
    FrameFields(s3, u, l);
    Chain(s, Sig + [Meta, UpperStart], u + [LowerStart] + l, s3,
      s3.(phase := WaitF2, textPos := FieldWidth, upper := Text.Render(u) + ['\0'], lower := Text.Render(l) + ['\0']), []);
  }

  /** 0xF2 in the end wait publishes both buffers and returns the parser to rest. */
  lemma {:induction false} FrameEndPublishes(t: PState)
    requires Good(t) && t.phase == WaitF2
    ensures Run(t, [FrameEnd]) == (t.(phase := WaitMpsend), [Publish(t.upper, t.lower)])
  {
    RunOne(t, FrameEnd, t.(phase := WaitMpsend), Some(Publish(t.upper, t.lower)));
  }

  /** A field buffer holding a rendering and its NUL publishes the trimmed rendering. */
  lemma {:induction false} PublishRendered(u: seq<byte>, l: seq<byte>)
    ensures Publish(Text.Render(u) + ['\0'], Text.Render(l) + ['\0']) ==
      Frame(Text.Trim(Text.Render(u)), Text.Trim(Text.Render(l)), Volume.ParseVolume(Text.Trim(Text.Render(l))))
  {
    assert Text.Render(u) + ['\0'] == Text.Render(u) + ['\0'] + [];
    Text.CStringOfTerminated(Text.Render(u), []);
    assert Text.Render(l) + ['\0'] == Text.Render(l) + ['\0'] + [];
    Text.CStringOfTerminated(Text.Render(l), []);
  }

  /** "MPSEND", the meta byte and 0xF0 take a parser at rest to reading the upper field. */
  lemma {:induction false} FrameHeader(s: PState)
    requires Idle(s)
    ensures Run(s, Sig + [Meta, UpperStart]) == (s.(textPos := 0, phase := ReadUpper), [])
  {
    var s1 := s.(phase := WaitMeta);
    var s2 := s1.(phase := WaitF0);
    var s3 := s2.(textPos := 0, phase := ReadUpper);
    SignatureRecognised(s);
    RunOne(s1, Meta, s2, None);
    RunOne(s2, UpperStart, s3, None);
    Chain(s1, [Meta], [UpperStart], s2, s3, []);
    assert [Meta] + [UpperStart] == [Meta, UpperStart];
    Chain(s, Sig, [Meta, UpperStart], s1, s3, []);
  }

  /** Both fields, with 0xF1 between them, take the parser from the upper field to the end wait. */
  lemma {:induction false} FrameFields(t: PState, u: seq<byte>, l: seq<byte>)
    requires Good(t) && t.phase == ReadUpper && t.textPos == 0
    requires |u| == FieldWidth && |l| == FieldWidth
    ensures Run(t, u + [LowerStart] + l) ==
      (t.(phase := WaitF2, textPos := FieldWidth, upper := Text.Render(u) + ['\0'], lower := Text.Render(l) + ['\0']), [])
  {
    var t4 := t.(phase := WaitF1, textPos := FieldWidth, upper := Text.Render(u) + ['\0']);
    var t5 := t4.(textPos := 0, phase := ReadLower);
    var t6 := t5.(phase := WaitF2, textPos := FieldWidth, lower := Text.Render(l) + ['\0']);
    UpperField(t, u);
    RunOne(t4, LowerStart, t5, None);
    Chain(t, u, [LowerStart], t4, t5, []);
    LowerField(t5, l);
    Chain(t, u + [LowerStart], l, t5, t6, []);
  }

  /** The marker byte each wait state is waiting for. */
  function Awaited(phase: Phase): byte
    requires phase in {WaitMeta, WaitF0, WaitF1, WaitF2}
  {
    match phase
    case WaitMeta => Meta
    case WaitF0 => UpperStart
    case WaitF1 => LowerStart
    case WaitF2 => FrameEnd
  }

  /** A wait state ignores every byte except its marker, which always moves it on. */
  lemma {:induction false} WaitStatesIgnoreOtherBytes(s: PState, c: byte)
    requires Good(s) && s.phase in {WaitMeta, WaitF0, WaitF1, WaitF2}
    ensures Step(s, c) == (s, None) <==> c != Awaited(s.phase)
    ensures c == Awaited(s.phase) ==> Step(s, c).0.phase != s.phase
  {
  }

  /**
   * The parser's part of `AVR645`: its state, its two cursors and its two
   * 15-character field buffers, updated in place one byte at a time.
   */
  class FrameParser {
    var phase: Phase
    var sigPos: nat
    var textPos: nat
    const upperBuf: array<char>
    const lowerBuf: array<char>

    /** The fields as a parser state. */
    ghost function View(): PState
      reads this, upperBuf, lowerBuf
    {
      PState(phase, sigPos, textPos, upperBuf[..], lowerBuf[..])
    }

    ghost predicate Valid()
      reads this, upperBuf, lowerBuf
    {
      upperBuf != lowerBuf && Good(View())
    }

    /** A fresh parser waits for a signature with nothing matched. */
    constructor ()
      ensures Valid() && Idle(View())
      ensures fresh(upperBuf) && fresh(lowerBuf)
    {
      phase := WaitMpsend;
      sigPos := 0;
      textPos := 0;
      upperBuf := new char[FieldWidth + 1](_ => '\0');
      lowerBuf := new char[FieldWidth + 1](_ => '\0');
    }

    /** `process_byte_(c)`: moves the fields as `Step` does and returns the frame it publishes. */
    method ProcessByte(c: byte) returns (ev: Option<Frame>)
      requires Valid()
      modifies this, upperBuf, lowerBuf
      ensures Valid()
      ensures View() == Step(old(View()), c).0
      ensures ev == Step(old(View()), c).1
    {
      ev := None;
      match phase
      case WaitMpsend =>
        if c == Sig[sigPos] {
          sigPos := sigPos + 1;
          if sigPos == |Sig| {
            sigPos := 0;
            phase := WaitMeta;
          }
        } else {
          sigPos := 0;
        }
      case WaitMeta =>
        if c == Meta {
          phase := WaitF0;
        }
      case WaitF0 =>
        if c == UpperStart {
          textPos := 0;
          phase := ReadUpper;
        }
      case ReadUpper =>
        PutUpper(c);
      case WaitF1 =>
        if c == LowerStart {
          textPos := 0;
          phase := ReadLower;
        }
      case ReadLower =>
        PutLower(c);
      case WaitF2 =>
        if c == FrameEnd {
          ev := Some(Publish(upperBuf[..], lowerBuf[..]));
          phase := WaitMpsend;
        }
    }

    /** The `READ_UPPER` case: the printable byte goes in, and the 14th closes the field. */
    method PutUpper(c: byte)
      requires Valid() && phase == ReadUpper
      modifies this, upperBuf
      ensures Valid() && View() == Step(old(View()), c).0
    {
      upperBuf[textPos] := Text.Print(c);
      textPos := textPos + 1;
      if textPos == FieldWidth {
        upperBuf[FieldWidth] := '\0';
        phase := WaitF1;
      }
    }

    /** The `READ_LOWER` case, into the lower buffer. */
    method PutLower(c: byte)
      requires Valid() && phase == ReadLower
      modifies this, lowerBuf
      ensures Valid() && View() == Step(old(View()), c).0
    {
      lowerBuf[textPos] := Text.Print(c);
      textPos := textPos + 1;
      if textPos == FieldWidth {
        lowerBuf[FieldWidth] := '\0';
        phase := WaitF2;
      }
    }
  }
}
