/**
 * `parse_volume_`: the volume reading carried by the lower text field, e.g.
 * "VOL -43dB". The component accumulates the value in an `int` and hands it
 * on as a float; here it is an unbounded integer.
 */
module Volume {
  import opened Common

  /** `isdigit` in the C locale. */
  predicate IsDigit(ch: char)
  {
    '0' <= ch <= '9'
  }

  /** The marker "VOL" starts at index `k` of `s`. */
  predicate VolAt(s: string, k: nat)
  {
    k + 3 <= |s| && s[k] == 'V' && s[k + 1] == 'O' && s[k + 2] == 'L'
  }

  /** `s.find("VOL", from)`: the first occurrence at or after `from`. */
  function FindVol(s: string, from: nat): (r: Option<nat>)
    ensures r.Some? ==> from <= r.value && VolAt(s, r.value)
    ensures forall k | from <= k && (r.None? || k < r.value) :: !VolAt(s, k)
    decreases |s| - from
  {
    if from + 3 > |s| then None
    else if VolAt(s, from) then Some(from)
    else FindVol(s, from + 1)
  }

  /** First index at or after `i` that is not a space (|s| when there is none). */
  function SkipSpaces(s: string, i: nat): (j: nat)
    requires i <= |s|
    ensures i <= j <= |s|
    ensures forall k | i <= k < j :: s[k] == ' '
    ensures j < |s| ==> s[j] != ' '
    decreases |s| - i
  {
    if i == |s| || s[i] != ' ' then i else SkipSpaces(s, i + 1)
  }

  /** End of the maximal run of digits starting at `i`. */
  function DigitEnd(s: string, i: nat): (j: nat)
    requires i <= |s|
    ensures i <= j <= |s|
    ensures forall k | i <= k < j :: IsDigit(s[k])
    ensures j < |s| ==> !IsDigit(s[j])
    decreases |s| - i
  {
    if i == |s| || !IsDigit(s[i]) then i else DigitEnd(s, i + 1)
  }

  predicate AllDigits(ds: string)
  {
    forall k | 0 <= k < |ds| :: IsDigit(ds[k])
  }

  /** The loop `value = value * 10 + (digit - '0')` over a run of digits. */
  function Decimal(ds: string): (v: nat)
    requires AllDigits(ds)
  {
    if ds == [] then 0 else Decimal(ds[..|ds| - 1]) * 10 + (ds[|ds| - 1] as int - '0' as int)
  }

  /**
   * `parse_volume_`: after the first "VOL", skip spaces, take an optional
   * '-', then require a digit; the value is the maximal digit run read in
   * base 10, negated after a '-'. Whether "dB" follows makes no difference:
   * both of the source's exits return the same value.
   */
  function ParseVolume(line: string): (r: Option<int>)
    ensures (forall k :: !VolAt(line, k)) ==> r == None
  {
    match FindVol(line, 0)
    case None => None
    case Some(p) =>
      var q := SkipSpaces(line, p + 3);
      var negative := q < |line| && line[q] == '-';
      var d := if negative then q + 1 else q;
      if d >= |line| || !IsDigit(line[d]) then None
      else
        var v: int := Decimal(line[d..DigitEnd(line, d)]);
        Some(if negative then -v else v)
  }

  /** The shortest decimal spelling of `n` (the reference the parser must invert). */
  function Digits(n: nat): (ds: string)
    ensures ds != [] && AllDigits(ds)
  {
    if n < 10 then [('0' as int + n) as char]
    else Digits(n / 10) + [('0' as int + n % 10) as char]
  }

  /** Reading back the spelling of `n` gives `n`. */
  lemma {:induction false} DecimalOfDigits(n: nat)
    ensures Decimal(Digits(n)) == n
  {
    var ds := Digits(n);
    if n >= 10 {
      assert ds[..|ds| - 1] == Digits(n / 10);
      DecimalOfDigits(n / 10);
    }
  }

  function Spaces(n: nat): (s: string)
    ensures |s| == n && forall k | 0 <= k < n :: s[k] == ' '
  {
    if n == 0 then [] else Spaces(n - 1) + [' ']
  }

  /**
   * The first "VOL" of `line` is at `p`; it is followed by `pad` spaces and
   * then by '-' exactly when `negative`. Where the digits must start is
   * `p + 3 + pad`, one further after a '-'.
   */
  predicate Marked(line: string, p: nat, pad: nat, negative: bool)
  {
    VolAt(line, p) && (forall k | 0 <= k < p :: !VolAt(line, k)) &&
    p + 3 + pad <= |line| && (forall k | p + 3 <= k < p + 3 + pad :: line[k] == ' ') &&
    (p + 3 + pad < |line| ==> line[p + 3 + pad] != ' ') &&
    (negative <==> p + 3 + pad < |line| && line[p + 3 + pad] == '-')
  }

  /** Where the digits of a marked line start. */
  function DigitStart(p: nat, pad: nat, negative: bool): nat
  {
    p + 3 + pad + (if negative then 1 else 0)
  }

  /** A marked line whose digits are the maximal run `line[d..e]`, which is not empty. */
  predicate Laid(line: string, p: nat, pad: nat, negative: bool, e: nat)
  {
    var d := DigitStart(p, pad, negative);
    Marked(line, p, pad, negative) &&
    d < e <= |line| && (forall k | d <= k < e :: IsDigit(line[k])) && (e < |line| ==> !IsDigit(line[e]))
  }

  /**
   * Every line with a "VOL" is marked: the padding and the sign are where
   * the spaces loop and the '-' check leave them after the first "VOL".
   */
  lemma {:induction false} MarkFirstVol(line: string, p: nat) returns (pad: nat, negative: bool)
    requires FindVol(line, 0) == Some(p)
    ensures Marked(line, p, pad, negative)
  {
    var q := SkipSpaces(line, p + 3);
    pad := q - (p + 3);
    negative := q < |line| && line[q] == '-';
  }

  /** The first "VOL" is found wherever it is. */
  lemma {:induction false} FindFirstVol(line: string, p: nat)
    requires VolAt(line, p) && forall k | 0 <= k < p :: !VolAt(line, k)
    ensures FindVol(line, 0) == Some(p)
  {
  }

  /**
   * Every line whose first "VOL" is followed, after spaces and an optional
   * '-', by a run of digits parses to the run's value, negated after '-'.
   */
  lemma {:induction false} ParseAt(line: string, p: nat, pad: nat, negative: bool, e: nat)
    requires Laid(line, p, pad, negative, e)
    ensures var d := DigitStart(p, pad, negative);
      ParseVolume(line) == Some(if negative then -(Decimal(line[d..e]) as int) else Decimal(line[d..e]))
  {
    var d := DigitStart(p, pad, negative);
    FindFirstVol(line, p);
    SkipSpacesOver(line, p + 3, p + 3 + pad);
    DigitEndOver(line, d, e);
    ParseSteps(line, p, p + 3 + pad, negative, d, e);
  }

  /** `ParseVolume` through its steps, given where each of them stops. */
  lemma {:induction false} ParseSteps(line: string, p: nat, q: nat, negative: bool, d: nat, e: nat)
    requires FindVol(line, 0) == Some(p) && p + 3 <= q <= |line| && SkipSpaces(line, p + 3) == q
    requires (negative <==> q < |line| && line[q] == '-') && d == q + (if negative then 1 else 0)
    requires d < |line| && IsDigit(line[d]) && DigitEnd(line, d) == e
    ensures ParseVolume(line) == Some(if negative then -(Decimal(line[d..e]) as int) else Decimal(line[d..e]))
  {
  }

  /**
   * Every line whose first "VOL" is followed, after spaces and an optional
   * '-', by the end of the line or by anything but a digit is no reading.
   */
  lemma {:induction false} NoDigitNoReading(line: string, p: nat, pad: nat, negative: bool)
    requires Marked(line, p, pad, negative)
    requires var d := DigitStart(p, pad, negative); d >= |line| || !IsDigit(line[d])
    ensures ParseVolume(line) == None
  {
    FindFirstVol(line, p);
    SkipSpacesOver(line, p + 3, p + 3 + pad);
  }

  /**
   * Every reading of the shape: text without "VOL", "VOL", any number of
   * spaces, an optional '-', the digits of `n`, then anything that does not
   * start with a digit (such as "dB", or nothing) parses to `n` or `-n`:
   * neither the text before nor the suffix changes the value.
   */
  lemma {:induction false} VolumeReading(pre: string, pad: nat, negative: bool, n: nat, suffix: string)
    requires forall k :: !VolAt(pre, k)
    requires suffix == [] || !IsDigit(suffix[0])
    ensures ParseVolume(pre + "VOL" + Spaces(pad) + (if negative then "-" else "") + Digits(n) + suffix)
         == Some(if negative then -(n as int) else n)
  {
    var line := pre + "VOL" + Spaces(pad) + (if negative then "-" else "") + Digits(n) + suffix;
    var e := ReadingShape(pre, pad, negative, n, suffix, line);
    ParseDigitsOf(line, |pre|, pad, negative, n, e);
  }

  /** A laid-out line whose digit run spells `n` parses to `n` or `-n`. */
  lemma {:induction false} ParseDigitsOf(line: string, p: nat, pad: nat, negative: bool, n: nat, e: nat)
    requires Laid(line, p, pad, negative, e)
    requires line[DigitStart(p, pad, negative)..e] == Digits(n)
    ensures ParseVolume(line) == Some(if negative then -(n as int) else n)
  {
    ParseAt(line, p, pad, negative, e);
    DecimalOfDigits(n);
  }

  /** No "VOL" starts inside `pre` once "VOL" follows it, since "VOL" does not overlap itself. */
  lemma {:induction false} NoVolBefore(pre: string, rest: string, line: string)
    requires forall k :: !VolAt(pre, k)
    requires line == pre + rest && |rest| >= 3 && rest[..3] == "VOL"
    ensures forall k | 0 <= k < |pre| :: !VolAt(line, k)
  {
    forall k | 0 <= k < |pre|
      ensures !VolAt(line, k)
    {
      if k + 3 <= |pre| {
        assert line[k] == pre[k] && line[k + 1] == pre[k + 1] && line[k + 2] == pre[k + 2];
        assert !VolAt(pre, k);
      } else if k + 2 == |pre| {
        assert line[k + 2] == rest[0] == 'V';
      } else {
        assert line[k + 1] == rest[0] == 'V';
      }
    }
  }

  /** The layout of a reading line, as `ParseAt` needs it; `e` is where the digits end. */
  lemma {:induction false} ReadingShape(pre: string, pad: nat, negative: bool, n: nat, suffix: string, line: string) returns (e: nat)
    requires forall k :: !VolAt(pre, k)
    requires suffix == [] || !IsDigit(suffix[0])
    requires line == pre + "VOL" + Spaces(pad) + (if negative then "-" else "") + Digits(n) + suffix
    ensures Laid(line, |pre|, pad, negative, e)
    ensures DigitStart(|pre|, pad, negative) <= e <= |line|
    ensures line[DigitStart(|pre|, pad, negative)..e] == Digits(n)
  {
    var rest := "VOL" + Spaces(pad) + (if negative then "-" else "") + Digits(n) + suffix;
    assert line == pre + rest;
    var e0 := RestShape(pad, negative, n, suffix, rest);
    e := |pre| + e0;
    Shifted(pre, rest, line, pad, negative, e0);
  }

  /** The layout of a reading that starts the line. */
  lemma {:induction false} RestShape(pad: nat, negative: bool, n: nat, suffix: string, rest: string) returns (e: nat)
    requires suffix == [] || !IsDigit(suffix[0])
    requires rest == "VOL" + Spaces(pad) + (if negative then "-" else "") + Digits(n) + suffix
    ensures Laid(rest, 0, pad, negative, e)
    ensures DigitStart(0, pad, negative) <= e <= |rest|
    ensures rest[DigitStart(0, pad, negative)..e] == Digits(n)
  {
    var sign := if negative then "-" else "";
    var ds := Digits(n);
    var head := "VOL" + Spaces(pad) + sign;
    assert rest == head + ds + suffix;
    var d := 3 + pad + |sign|;
    e := d + |ds|;
    assert |head| == d;
    assert VolAt(rest, 0) by {
      assert rest[..3] == "VOL";
    }
    forall k | 3 <= k < 3 + pad
      ensures rest[k] == ' '
    {
      assert rest[k] == head[k] == Spaces(pad)[k - 3];
    }
    assert rest[3 + pad] == (if negative then '-' else ds[0]);
    assert rest[d..e] == ds;
    assert e < |rest| ==> rest[e] == suffix[0];
  }

  /** Text without "VOL" in front of a laid-out line moves the layout along. */
  lemma {:induction false} Shifted(pre: string, rest: string, line: string, pad: nat, negative: bool, e: nat)
    requires forall k :: !VolAt(pre, k)
    requires line == pre + rest && Laid(rest, 0, pad, negative, e)
    ensures Laid(line, |pre|, pad, negative, |pre| + e)
    ensures line[DigitStart(|pre|, pad, negative)..|pre| + e] == rest[DigitStart(0, pad, negative)..e]
  {
    var p := |pre|;
    var d := DigitStart(0, pad, negative);
    assert rest[..3] == "VOL";
    NoVolBefore(pre, rest, line);
    assert VolAt(line, p) by {
      assert line[p] == rest[0] && line[p + 1] == rest[1] && line[p + 2] == rest[2];
    }
    forall k | p + 3 <= k < p + 3 + pad
      ensures line[k] == ' '
    {
      assert line[k] == rest[k - p];
    }
    assert line[p + 3 + pad] == rest[3 + pad];
    forall k | p + d <= k < p + e
      ensures IsDigit(line[k])
    {
      assert line[k] == rest[k - p];
    }
    assert p + e < |line| ==> line[p + e] == rest[e];
    assert line[p + d..p + e] == rest[d..e];
  }

  lemma {:induction false} SkipSpacesOver(s: string, i: nat, j: nat)
    requires i <= j <= |s|
    requires forall k | i <= k < j :: s[k] == ' '
    requires j < |s| ==> s[j] != ' '
    ensures SkipSpaces(s, i) == j
    decreases j - i
  {
    if i < j {
      SkipSpacesOver(s, i + 1, j);
    }
  }

  lemma {:induction false} DigitEndOver(s: string, i: nat, j: nat)
    requires i <= j <= |s|
    requires forall k | i <= k < j :: IsDigit(s[k])
    requires j < |s| ==> !IsDigit(s[j])
    ensures DigitEnd(s, i) == j
    decreases j - i
  {
    if i < j {
      DigitEndOver(s, i + 1, j);
    }
  }

  /** The reading the component's own comment names: "VOL -43dB" is -43. */
  lemma {:induction false} ExampleWithUnit()
    ensures ParseVolume("VOL -43dB") == Some(-43)
  {
    assert Digits(43) == "43" by { assert Digits(4) == "4"; }
    assert "VOL -43dB" == "" + "VOL" + Spaces(1) + "-" + Digits(43) + "dB";
    VolumeReading("", 1, true, 43, "dB");
  }

  /** Without the unit the value is the same: "VOL 12" is 12. */
  lemma {:induction false} ExampleWithoutUnit()
    ensures ParseVolume("VOL 12") == Some(12)
  {
    assert Digits(12) == "12" by { assert Digits(1) == "1"; }
    assert "VOL 12" == "" + "VOL" + Spaces(1) + "" + Digits(12) + "";
    VolumeReading("", 1, false, 12, "");
  }

  /** Text before the marker does not matter: "MAIN VOL 7" is 7. */
  lemma {:induction false} ExampleAfterText()
    ensures ParseVolume("MAIN VOL 7") == Some(7)
  {
    assert "MAIN VOL 7" == "MAIN " + "VOL" + Spaces(1) + "" + Digits(7) + "";
    VolumeReading("MAIN ", 1, false, 7, "");
  }

  /** A marker not followed by a number is no reading: "VOLUME HIGH" gives nothing. */
  lemma {:induction false} ExampleNoDigit()
    ensures ParseVolume("VOLUME HIGH") == None
  {
    var s := "VOLUME HIGH";
    assert VolAt(s, 0);
    assert FindVol(s, 0) == Some(0);
    assert s[3] == 'U';
    assert SkipSpaces(s, 3) == 3;
  }
}
