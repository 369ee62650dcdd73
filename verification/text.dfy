/** The handful of Python `str` operations the blame parser and the plain
    formatter rely on, over `string == seq<char>`.  Character classes are
    the ASCII part of Python's: `IsSpace` is what `str.split()` separates
    on below code point 128, `IsAlnumChar` is ASCII letters and digits. */
module Text {

  /** `s.startswith(prefix)` */
  predicate StartsWith(s: string, prefix: string) {
    |prefix| <= |s| && forall i :: 0 <= i < |prefix| ==> s[i] == prefix[i]
  }

  /** `s in text` for strings: `s` occurs in `text` at some offset. */
  predicate Contains(text: string, s: string) {
    exists m :: 0 <= m <= |text| - |s| && s <= text[m..]
  }

  /** When a character `c` occurs in `p + [c] + q` only between `p` and
      `q`, a string holding `c` at position `i` can occur only where its `c`
      falls on that one: starting `i` characters before it.  A mismatch at
      that offset, `d` characters into the string, rules out every
      occurrence. */
  lemma NotContainsByMark(p: string, c: char, q: string, s: string, i: nat, d: nat)
    requires c !in p && c !in q
    requires i < |s| && s[i] == c
    requires d < i <= |p| && p[|p| - i + d] != s[d]
    ensures !Contains(p + [c] + q, s)
  {
  }

  function Min(a: nat, b: nat): nat { if a < b then a else b }

  function Max(a: nat, b: nat): nat { if a < b then b else a }

  /** The slice `s[:n]`: the first `n` characters, or all of `s` if it is
      shorter. */
  function Prefix(s: string, n: nat): string {
    if n < |s| then s[..n] else s
  }

  /** `s.rstrip("\n")`: every trailing newline removed. */
  function RStripNewlines(s: string): string
    decreases |s|
  {
    if s != [] && s[|s| - 1] == '\n' then RStripNewlines(s[..|s| - 1]) else s
  }

  /** `rstrip("\n")` keeps a prefix that does not end in a newline and
      removes only newlines. */
  lemma {:induction false} RStripNewlinesSpec(s: string)
    ensures var r := RStripNewlines(s);
            && r <= s
            && (r == [] || r[|r| - 1] != '\n')
            && (forall i :: |r| <= i < |s| ==> s[i] == '\n')
    decreases |s|
  {
    if s != [] && s[|s| - 1] == '\n' {
      RStripNewlinesSpec(s[..|s| - 1]);
    }
  }

  /** Whitespace as `str.isspace` sees it, restricted to ASCII:
      space, TAB, LF, VT, FF, CR and the four separators 0x1C..0x1F. */
  predicate IsSpace(c: char) {
    c == ' ' || (9 <= c as int <= 13) || (28 <= c as int <= 31)
  }

  /** `s.split() == []`: the empty string or whitespace only. */
  predicate IsBlank(s: string) {
    forall i :: 0 <= i < |s| ==> IsSpace(s[i])
  }

  predicate IsAlnumChar(c: char) {
    ('a' <= c <= 'z') || ('A' <= c <= 'Z') || ('0' <= c <= '9')
  }

  /** `s.isalnum()`: false on the empty string. */
  predicate IsAlnum(s: string) {
    |s| > 0 && forall i :: 0 <= i < |s| ==> IsAlnumChar(s[i])
  }

  /** Number of leading whitespace characters. */
  function LeadingSpaces(s: string): (k: nat)
    ensures k <= |s|
    decreases |s|
  {
    if s != [] && IsSpace(s[0]) then 1 + LeadingSpaces(s[1..]) else 0
  }

  /** The leading whitespace is all whitespace and is followed by a
      non-whitespace character or the end. */
  lemma {:induction false} LeadingSpacesSpec(s: string)
    ensures var k := LeadingSpaces(s);
            IsBlank(s[..k]) && (k == |s| || !IsSpace(s[k]))
    decreases |s|
  {
    if s != [] && IsSpace(s[0]) {
      LeadingSpacesSpec(s[1..]);
      assert s[..LeadingSpaces(s)] == [s[0]] + s[1..][..LeadingSpaces(s[1..])];
    }
  }

  /** The longest prefix of `s` free of whitespace. */
  function TakeWord(s: string): string
    decreases |s|
  {
    if s == [] || IsSpace(s[0]) then [] else [s[0]] + TakeWord(s[1..])
  }

  /** The word taken is a whitespace-free prefix, followed by whitespace or
      the end. */
  lemma {:induction false} TakeWordSpec(s: string)
    ensures var w := TakeWord(s);
            && w <= s
            && (forall i :: 0 <= i < |w| ==> !IsSpace(w[i]))
            && (|w| == |s| || IsSpace(s[|w|]))
    decreases |s|
  {
    if s != [] && !IsSpace(s[0]) {
      TakeWordSpec(s[1..]);
    }
  }

  /** `s.split()[0]`, defined exactly when the split is not empty. */
  function FirstToken(s: string): string
    requires !IsBlank(s)
  {
    TakeWord(s[LeadingSpaces(s)..])
  }

  /** The first token is the first maximal run of non-whitespace: only
      whitespace precedes it, and whitespace or the end follows it. */
  lemma FirstTokenSpec(s: string)
    requires !IsBlank(s)
    ensures var t, k := FirstToken(s), LeadingSpaces(s);
            && |t| > 0
            && (forall i :: 0 <= i < |t| ==> !IsSpace(t[i]))
            && t <= s[k..]
            && IsBlank(s[..k])
            && (k + |t| == |s| || IsSpace(s[k + |t|]))
  {
    var k := LeadingSpaces(s);
    LeadingSpacesSpec(s);
    TakeWordSpec(s[k..]);
    assert s[..|s|] == s;
  }

  /** A string that starts with an alphanumeric character is not blank and
      its first token starts at its first character. */
  lemma AlnumStartToken(s: string)
    requires s != [] && IsAlnumChar(s[0])
    ensures !IsBlank(s)
    ensures LeadingSpaces(s) == 0
    ensures FirstToken(s) <= s
  {
    assert !IsSpace(s[0]);
    FirstTokenSpec(s);
  }

  /** `n` spaces. */
  function Spaces(n: nat): (r: string)
    ensures |r| == n
    ensures forall i :: 0 <= i < n ==> r[i] == ' '
  {
    seq(n, _ => ' ')
  }

  /** `s.rjust(width)`, the alignment of `f"{x:4d}"`: padded on the left
      with spaces to at least `width` characters, never truncated. */
  function RJust(s: string, width: nat): (r: string)
    ensures |r| == Max(width, |s|)
    ensures r[|r| - |s|..] == s
    ensures forall i :: 0 <= i < |r| - |s| ==> r[i] == ' '
  {
    Spaces(if |s| < width then width - |s| else 0) + s
  }

  /** `s.ljust(width)`, the alignment of `f"{s:12}"`: padded on the right
      with spaces to at least `width` characters, never truncated. */
  function LJust(s: string, width: nat): (r: string)
    ensures |r| == Max(width, |s|)
    ensures r[..|s|] == s
    ensures forall i :: |s| <= i < |r| ==> r[i] == ' '
  {
    s + Spaces(if |s| < width then width - |s| else 0)
  }

  predicate IsDigit(c: char) { '0' <= c <= '9' }

  predicate AllDigits(s: string) {
    forall i :: 0 <= i < |s| ==> IsDigit(s[i])
  }

  function DigitChar(d: nat): (c: char)
    requires d < 10
    ensures IsDigit(c)
    ensures (c as int) - ('0' as int) == d
  {
    (('0' as int) + d) as char
  }

  /** The number a string of decimal digits denotes (the reference reading
      against which `NatToDecimal` is checked). */
  function DecimalValue(s: string): nat
    requires AllDigits(s)
    decreases |s|
  {
    if s == [] then 0
    else DecimalValue(s[..|s| - 1]) * 10 + ((s[|s| - 1] as int) - ('0' as int))
  }

  /** Canonical decimal digits of `n`: what `f"{n:d}"` prints for `n >= 0`. */
  function NatToDecimal(n: nat): (r: string)
    ensures |r| > 0
    ensures AllDigits(r)
    ensures |r| > 1 ==> r[0] != '0'
    ensures DecimalValue(r) == n
    decreases n
  {
    if n < 10 then [DigitChar(n)]
    else
      var front := NatToDecimal(n / 10);
      var r := front + [DigitChar(n % 10)];
      assert r[..|r| - 1] == front;
      r
  }

  /** The other direction of the round trip: every canonical digit string
      is the rendering of the number it denotes. */
  lemma {:induction false} DecimalCanonical(s: string)
    requires |s| > 0 && AllDigits(s)
    requires |s| > 1 ==> s[0] != '0'
    ensures NatToDecimal(DecimalValue(s)) == s
    decreases |s|
  {
    var n := DecimalValue(s);
    var last := (s[|s| - 1] as int) - ('0' as int);
    if |s| == 1 {
      assert s[..0] == [];
      assert DecimalValue(s[..0]) == 0;
      assert n == DecimalValue(s[..0]) * 10 + last;
      assert [DigitChar(n)][0] == s[0];
    } else {
      var front := s[..|s| - 1];
      assert AllDigits(front);
      assert front[0] == s[0];
      DecimalPositive(front);
      DecimalCanonical(front);
      assert n / 10 == DecimalValue(front);
      assert n % 10 == last;
      assert NatToDecimal(n) == NatToDecimal(n / 10) + [DigitChar(n % 10)];
      assert s == front + [s[|s| - 1]];
    }
  }

  lemma {:induction false} DecimalPositive(s: string)
    requires |s| > 0 && AllDigits(s) && s[0] != '0'
    ensures DecimalValue(s) > 0
    decreases |s|
  {
    if |s| > 1 {
      var front := s[..|s| - 1];
      assert front[0] == s[0];
      DecimalPositive(front);
    }
  }

  /** What `f"{n:d}"` prints for any Python int: a minus sign before the
      digits of a negative number. */
  function IntToDecimal(n: int): string {
    if n < 0 then "-" + NatToDecimal(-n) else NatToDecimal(n)
  }
}
