/**
 * The text helpers of the AVR645 component: `print_` (keep printable ASCII,
 * blank out the rest), the C-string view of a NUL-terminated char buffer,
 * and `trim_` (strip leading and trailing spaces).
 */
module Text {
  import opened Common

  /** `print_`: a byte in 32..126 is kept as that character, any other byte becomes a space. */
  function Print(c: byte): (r: char)
    ensures ' ' <= r <= '~'
    ensures r as int == c as int <==> 32 <= c < 127
    ensures r as int != c as int ==> r == ' '
  {
    if 32 <= c < 127 then (c as int) as char else ' '
  }

  /** A 14-byte field window after `print_` mapping, one character per byte. */
  function Render(bytes: seq<byte>): (r: string)
    ensures |r| == |bytes|
    ensures forall k | 0 <= k < |r| :: r[k] == Print(bytes[k])
    ensures '\0' !in r
  {
    seq(|bytes|, k requires 0 <= k < |bytes| => Print(bytes[k]))
  }

  /**
   * The `std::string` built from a `char*`: everything before the first NUL.
   * (A buffer without a NUL would be read past its end; the parser's
   * invariant rules that out.)
   */
  function CString(a: seq<char>): (r: string)
    ensures |r| <= |a| && r == a[..|r|]
    ensures '\0' !in r
    ensures |r| < |a| ==> a[|r|] == '\0'
  {
    if a == [] || a[0] == '\0' then [] else [a[0]] + CString(a[1..])
  }

  /** A buffer holding NUL-free text followed by a NUL denotes exactly that text. */
  lemma {:induction false} CStringOfTerminated(t: string, rest: seq<char>)
    requires '\0' !in t
    ensures CString(t + ['\0'] + rest) == t
  {
    if t != [] {
      assert (t + ['\0'] + rest)[1..] == t[1..] + ['\0'] + rest;
      CStringOfTerminated(t[1..], rest);
    }
  }

  /** `find_first_not_of(' ')`, with |s| standing for `npos`. */
  function Lead(s: string): (i: nat)
    ensures i <= |s|
    ensures forall k | 0 <= k < i :: s[k] == ' '
    ensures i < |s| ==> s[i] != ' '
  {
    if s == [] || s[0] != ' ' then 0 else 1 + Lead(s[1..])
  }

  /** One past `find_last_not_of(' ')`, with 0 when every character is a space. */
  function End(s: string): (j: nat)
    ensures j <= |s|
    ensures forall k | j <= k < |s| :: s[k] == ' '
    ensures j > 0 ==> s[j - 1] != ' '
  {
    if s == [] || s[|s| - 1] != ' ' then |s| else End(s[..|s| - 1])
  }

  /**
   * `trim_`: the contiguous part of `s` from its first to its last non-space
   * character; empty when `s` is all spaces.
   */
  function Trim(s: string): (r: string)
    ensures Lead(s) + |r| <= |s| && r == s[Lead(s)..Lead(s) + |r|]
    ensures forall k | 0 <= k < Lead(s) :: s[k] == ' '
    ensures forall k | Lead(s) + |r| <= k < |s| :: s[k] == ' '
    ensures r != [] ==> r[0] != ' ' && r[|r| - 1] != ' '
    ensures r == [] <==> forall k | 0 <= k < |s| :: s[k] == ' '
  {
    var f := Lead(s);
    if f == |s| then "" else s[f..End(s)]
  }

  /** Trimming twice is trimming once. */
  lemma {:induction false} TrimIdempotent(s: string)
    ensures Trim(Trim(s)) == Trim(s)
  {
    var r := Trim(s);
    if r != [] {
      assert Lead(r) == 0;
      assert End(r) == |r|;
    }
  }
}
