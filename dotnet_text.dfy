/** The pieces of the .NET base library that the store leans on, written out:
    the exceptions it can surface, white-space trimming, `String.Split` with
    `RemoveEmptyEntries`, and the text forms of `int` and `Guid` together with
    `int.Parse` and `Guid.Parse`. */
module DotNetText {
  import opened Wrappers

  /** The exceptions the store lets escape to its caller. */
  datatype Exception =
    | InvalidOperationException               // segment count differs from property count
    | FormatException                         // Guid.Parse or int.Parse on malformed text
    | OverflowException                       // int.Parse on a number outside Int32
    | NotSupportedException(typeName: string) // a property type with no text conversion

  /** The field separator of the store's files. */
  const Tab: char := '\t'

  predicate NoTab(s: string) {
    forall i :: 0 <= i < |s| ==> s[i] != Tab
  }

  // ---------------------------------------------------------------------------
  // White space, as trimmed by int.Parse (NumberStyles.Integer) and Guid.Parse

  predicate IsWhiteSpace(c: char) {
    c == ' ' || '\t' <= c <= '\r'
  }

  function TrimStart(s: string): (r: string)
    ensures r == [] || !IsWhiteSpace(r[0])
    ensures |r| <= |s| && r == s[|s| - |r|..]
  {
    if s != [] && IsWhiteSpace(s[0]) then TrimStart(s[1..]) else s
  }

  function TrimEnd(s: string): (r: string)
    ensures r == [] || !IsWhiteSpace(r[|r| - 1])
    ensures |r| <= |s| && r == s[..|r|]
  {
    if s != [] && IsWhiteSpace(s[|s| - 1]) then TrimEnd(s[..|s| - 1]) else s
  }

  function Trim(s: string): string {
    TrimEnd(TrimStart(s))
  }

  /** Text that neither starts nor ends with white space is left alone by Trim. */
  lemma TrimUntouched(s: string)
    requires s != [] && !IsWhiteSpace(s[0]) && !IsWhiteSpace(s[|s| - 1])
    ensures Trim(s) == s
  {
  }

  // ---------------------------------------------------------------------------
  // String.Split(new[] {sep}, StringSplitOptions.RemoveEmptyEntries)

  /** Number of characters before the first `sep` of `s` (all of `s` when none). */
  function RunLength(s: string, sep: char): (n: nat)
    ensures n <= |s|
    ensures forall i :: 0 <= i < n ==> s[i] != sep
    ensures n < |s| ==> s[n] == sep
  {
    if s == [] || s[0] == sep then 0 else 1 + RunLength(s[1..], sep)
  }

  /** The maximal runs of non-`sep` characters of `s`, in order. */
  function SplitRemoveEmpty(s: string, sep: char): (parts: seq<string>)
    ensures forall k :: 0 <= k < |parts| ==> parts[k] != [] && sep !in parts[k]
    decreases |s|
  {
    if s == [] then []
    else if s[0] == sep then SplitRemoveEmpty(s[1..], sep)
    else
      var n := RunLength(s, sep);
      [s[..n]] + SplitRemoveEmpty(s[n..], sep)
  }

  /** A non-empty segment free of `sep`, followed by `sep`, comes out as one part. */
  lemma SplitSegment(t: string, rest: string, sep: char)
    requires t != [] && sep !in t
    ensures SplitRemoveEmpty(t + [sep] + rest, sep) == [t] + SplitRemoveEmpty(rest, sep)
  {
    var s := t + [sep] + rest;
    RunLengthOfSegment(t, rest, sep);
    assert s[..|t|] == t;
    assert s[|t|..] == [sep] + rest;
    assert ([sep] + rest)[1..] == rest;
  }

  lemma {:induction false} RunLengthOfSegment(t: string, rest: string, sep: char)
    requires sep !in t
    ensures RunLength(t + [sep] + rest, sep) == |t|
    decreases |t|
  {
    if t != [] {
      assert (t + [sep] + rest)[1..] == t[1..] + [sep] + rest;
      RunLengthOfSegment(t[1..], rest, sep);
    }
  }

  /** Splitting distributes over a concatenation whose left part ends at a separator. */
  lemma {:induction false} SplitAppend(s: string, t: string, sep: char)
    requires s == [] || s[|s| - 1] == sep
    ensures SplitRemoveEmpty(s + t, sep) == SplitRemoveEmpty(s, sep) + SplitRemoveEmpty(t, sep)
    decreases |s|
  {
    if s == [] {
      assert s + t == t;
    } else if s[0] == sep {
      assert (s + t)[1..] == s[1..] + t;
      SplitAppend(s[1..], t, sep);
    } else {
      var n := RunLength(s, sep);
      assert n < |s|;
      RunLengthPrefix(s, t, sep);
      assert (s + t)[..n] == s[..n];
      assert (s + t)[n..] == s[n..] + t;
      SplitAppend(s[n..], t, sep);
    }
  }

  lemma {:induction false} RunLengthPrefix(s: string, t: string, sep: char)
    requires RunLength(s, sep) < |s|
    ensures RunLength(s + t, sep) == RunLength(s, sep)
    decreases |s|
  {
    if s[0] != sep {
      assert (s + t)[1..] == s[1..] + t;
      RunLengthPrefix(s[1..], t, sep);
    }
  }

  /** Text holding any character other than `sep` yields at least one part. */
  lemma {:induction false} SplitFindsContent(s: string, sep: char, i: nat)
    requires i < |s| && s[i] != sep
    ensures |SplitRemoveEmpty(s, sep)| >= 1
    decreases |s|
  {
    if s[0] == sep {
      SplitFindsContent(s[1..], sep, i - 1);
    }
  }

  // ---------------------------------------------------------------------------
  // int: ToString and int.Parse

  type Int32 = x: int | -0x8000_0000 <= x <= 0x7FFF_FFFF

  predicate IsDigit(c: char) {
    '0' <= c <= '9'
  }

  predicate AllDigits(s: string) {
    forall i :: 0 <= i < |s| ==> IsDigit(s[i])
  }

  function DigitChar(d: nat): (c: char)
    requires d < 10
    ensures IsDigit(c)
  {
    ('0' as int + d) as char
  }

  /** The decimal digits of `n`, most significant first, without leading zeros. */
  function NatToDecimal(n: nat): (r: string)
    ensures r != [] && AllDigits(r)
    decreases n
  {
    if n < 10 then [DigitChar(n)] else NatToDecimal(n / 10) + [DigitChar(n % 10)]
  }

  /** The number a string of decimal digits denotes. */
  function DecimalValue(s: string): nat
    requires AllDigits(s)
  {
    if s == [] then 0 else DecimalValue(s[..|s| - 1]) * 10 + (s[|s| - 1] as int - '0' as int)
  }

  lemma {:induction false} DecimalRoundTrip(n: nat)
    ensures DecimalValue(NatToDecimal(n)) == n
    decreases n
  {
    if n >= 10 {
      var s := NatToDecimal(n);
      assert s[..|s| - 1] == NatToDecimal(n / 10);
      DecimalRoundTrip(n / 10);
    }
  }

  /** int.ToString() under the invariant culture. */
  function Int32ToString(x: Int32): (r: string)
    ensures r != [] && NoTab(r) && !IsWhiteSpace(r[0]) && !IsWhiteSpace(r[|r| - 1])
  {
    var n: int := x;
    if n < 0 then "-" + NatToDecimal(-n) else NatToDecimal(n)
  }

  /** int.Parse: white space trimmed, an optional sign, at least one decimal
      digit; a value outside Int32 overflows. */
  function ParseInt32(s: string): (r: Result<Int32, Exception>)
    ensures r.Failure? ==> r.error == FormatException || r.error == OverflowException
  {
    var t := Trim(s);
    var negative := t != [] && t[0] == '-';
    var body := if t != [] && (t[0] == '-' || t[0] == '+') then t[1..] else t;
    if body == [] || !AllDigits(body) then Failure(FormatException)
    else
      var magnitude := DecimalValue(body);
      var v: int := if negative then -(magnitude as int) else magnitude;
      if -0x8000_0000 <= v <= 0x7FFF_FFFF then Success(v) else Failure(OverflowException)
  }

  /** int.Parse reads back what int.ToString wrote. */
  lemma Int32RoundTrip(x: Int32)
    ensures ParseInt32(Int32ToString(x)) == Success(x)
  {
    var s := Int32ToString(x);
    var n: int := x;
    TrimUntouched(s);
    if n < 0 {
      var digits := NatToDecimal(-n);
      assert s == ['-'] + digits && s[1..] == digits;
      DecimalRoundTrip(-n);
      assert DecimalValue(s[1..]) == -n;
    } else {
      var digits := NatToDecimal(n);
      assert s == digits && digits[0] != '-' && digits[0] != '+';
      DecimalRoundTrip(n);
    }
  }

  // ---------------------------------------------------------------------------
  // Guid: ToString ("D" format) and Guid.Parse

  type Nibble = x: int | 0 <= x < 16

  /** A Guid, as the 32 hexadecimal digits of its text form, in display order. */
  type Guid = s: seq<Nibble> | |s| == 32 witness seq(32, i => 0)

  /** Guid.Empty. */
  const EmptyGuid: Guid :=
    [0, 0, 0, 0, 0, 0, 0, 0, 0, 0, 0, 0, 0, 0, 0, 0,
     0, 0, 0, 0, 0, 0, 0, 0, 0, 0, 0, 0, 0, 0, 0, 0]

  predicate IsHexDigit(c: char) {
    '0' <= c <= '9' || 'a' <= c <= 'f' || 'A' <= c <= 'F'
  }

  /** Lower-case hex digit, as Guid.ToString writes it. */
  function HexDigit(n: Nibble): (c: char)
    ensures IsHexDigit(c)
  {
    if n < 10 then ('0' as int + n) as char else ('a' as int + n - 10) as char
  }

  /** Value of a hex digit of either case. */
  function HexValue(c: char): Nibble
    requires IsHexDigit(c)
  {
    if c <= '9' then c as int - '0' as int
    else if c <= 'F' then c as int - 'A' as int + 10
    else c as int - 'a' as int + 10
  }

  /** Positions of the four hyphens of the "D" form xxxxxxxx-xxxx-xxxx-xxxx-xxxxxxxxxxxx. */
  predicate IsHyphenPosition(i: int) {
    i == 8 || i == 13 || i == 18 || i == 23
  }

  /** Which hex digit sits at character position `i` of the "D" form. */
  function NibbleAt(i: int): int {
    i - (if i > 8 then 1 else 0) - (if i > 13 then 1 else 0)
      - (if i > 18 then 1 else 0) - (if i > 23 then 1 else 0)
  }

  /** Where hex digit `j` sits in the "D" form. */
  function DigitPosition(j: int): int {
    j + (if j >= 8 then 1 else 0) + (if j >= 12 then 1 else 0)
      + (if j >= 16 then 1 else 0) + (if j >= 20 then 1 else 0)
  }

  /** Guid.ToString(): the "D" form, lower case. */
  function GuidToString(g: Guid): (r: string)
    ensures |r| == 36 && NoTab(r)
    ensures !IsWhiteSpace(r[0]) && !IsWhiteSpace(r[35])
  {
    seq(36, i requires 0 <= i < 36 =>
      if IsHyphenPosition(i) then '-' else HexDigit(g[NibbleAt(i)]))
  }

  /** The "D" form with any case of hex digit. */
  function ParseHyphenated(t: string): Result<Guid, Exception>
    requires |t| == 36
  {
    if forall i :: 0 <= i < 36 ==>
        (IsHyphenPosition(i) ==> t[i] == '-') && (!IsHyphenPosition(i) ==> IsHexDigit(t[i]))
    then Success(seq(32, j requires 0 <= j < 32 => HexValue(t[DigitPosition(j)])))
    else Failure(FormatException)
  }

  /** The "N" form: 32 hex digits and nothing else. */
  function ParseDigits(t: string): Result<Guid, Exception>
    requires |t| == 32
  {
    if forall i :: 0 <= i < 32 ==> IsHexDigit(t[i])
    then Success(seq(32, j requires 0 <= j < 32 => HexValue(t[j])))
    else Failure(FormatException)
  }

  /** Guid.Parse for the "D", "N", "B" ({D}) and "P" ((D)) forms, after trimming white space. */
  function ParseGuid(s: string): (r: Result<Guid, Exception>)
    ensures r.Failure? ==> r.error == FormatException
    ensures r.Success? ==> 32 <= |Trim(s)| <= 38
  {
    var t := Trim(s);
    if |t| == 36 then ParseHyphenated(t)
    else if |t| == 32 then ParseDigits(t)
    else if |t| == 38 && ((t[0] == '{' && t[37] == '}') || (t[0] == '(' && t[37] == ')'))
    then ParseHyphenated(t[1..37])
    else Failure(FormatException)
  }

  lemma DigitPositionInverse(j: int)
    requires 0 <= j < 32
    ensures 0 <= DigitPosition(j) < 36 && !IsHyphenPosition(DigitPosition(j))
    ensures NibbleAt(DigitPosition(j)) == j
  {
  }

  lemma HexValueOfDigit(n: Nibble)
    ensures HexValue(HexDigit(n)) == n
  {
  }

  /** Guid.Parse reads back what Guid.ToString wrote. */
  lemma GuidRoundTrip(g: Guid)
    ensures ParseGuid(GuidToString(g)) == Success(g)
  {
    var s := GuidToString(g);
    TrimUntouched(s);
    assert Trim(s) == s;
    assert forall i :: 0 <= i < 36 ==>
        (IsHyphenPosition(i) ==> s[i] == '-') && (!IsHyphenPosition(i) ==> IsHexDigit(s[i]));
    var parsed := seq(32, j requires 0 <= j < 32 => HexValue(s[DigitPosition(j)]));
    forall j | 0 <= j < 32
      ensures parsed[j] == g[j]
    {
      DigitPositionInverse(j);
      HexValueOfDigit(g[j]);
    }
    assert parsed == g;
    assert ParseHyphenated(s) == Success(g);
  }

  /** Distinct Guids have distinct text forms. */
  lemma GuidToStringInjective(g: Guid, h: Guid)
    requires GuidToString(g) == GuidToString(h)
    ensures g == h
  {
    GuidRoundTrip(g);
    GuidRoundTrip(h);
  }
}
