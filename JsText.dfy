/** The JavaScript string built-ins the bridge relies on: `split` with a
    one-character separator, `join`, `trim`, the "does parseInt accept this"
    test, and the decimal rendering of an array index. */
module JsText {

  /** WhiteSpace and LineTerminator of ECMA-262: the characters `trim`
      removes and `parseInt` skips before its digits. */
  predicate IsWhitespace(c: char) {
    || c == '\t' || c == '\U{000B}' || c == '\U{000C}' || c == ' '
    || c == '\U{00A0}' || c == '\U{FEFF}' || c == '\U{1680}'
    || ('\U{2000}' <= c <= '\U{200A}')
    || c == '\U{202F}' || c == '\U{205F}' || c == '\U{3000}'
    || c == '\n' || c == '\r' || c == '\U{2028}' || c == '\U{2029}'
  }

  predicate IsDecimalDigit(c: char) {
    '0' <= c <= '9'
  }

  /** `parts.join(sep)`. */
  function Join(parts: seq<string>, sep: char): string
  {
    if |parts| == 0 then ""
    else if |parts| == 1 then parts[0]
    else parts[0] + [sep] + Join(parts[1..], sep)
  }

  /** `s.split(sep)` for a one-character separator: the maximal pieces between
      separators, in order; the empty string splits into one empty piece. */
  function Split(s: string, sep: char): (parts: seq<string>)
    ensures |parts| >= 1
    ensures forall i :: 0 <= i < |parts| ==> sep !in parts[i]
    ensures Join(parts, sep) == s
  {
    if |s| == 0 then [""]
    else
      var rest := Split(s[1..], sep);
      if s[0] == sep then
        [""] + rest
      else
        assert s == [s[0]] + s[1..];
        [[s[0]] + rest[0]] + rest[1..]
  }

  lemma {:induction false} SplitNoSeparator(s: string, sep: char)
    requires sep !in s
    ensures Split(s, sep) == [s]
  {
    if |s| > 0 {
      assert sep !in s[1..];
      SplitNoSeparator(s[1..], sep);
      assert [s[0]] + s[1..] == s;
    }
  }

  lemma {:induction false} SplitAfterPiece(a: string, sep: char, b: string)
    requires sep !in a
    ensures Split(a + [sep] + b, sep) == [a] + Split(b, sep)
  {
    if |a| == 0 {
      assert a + [sep] + b == [sep] + b;
      assert ([sep] + b)[1..] == b;
    } else {
      assert (a + [sep] + b)[1..] == a[1..] + [sep] + b;
      assert sep !in a[1..];
      SplitAfterPiece(a[1..], sep, b);
      assert [a[0]] + a[1..] == a;
    }
  }

  /** Splitting undoes joining pieces that do not contain the separator, so
      `Split` is the only function with the contract above. */
  lemma {:induction false} SplitJoin(parts: seq<string>, sep: char)
    requires |parts| >= 1
    requires forall i :: 0 <= i < |parts| ==> sep !in parts[i]
    ensures Split(Join(parts, sep), sep) == parts
  {
    if |parts| == 1 {
      SplitNoSeparator(parts[0], sep);
    } else {
      SplitJoin(parts[1..], sep);
      SplitAfterPiece(parts[0], sep, Join(parts[1..], sep));
      assert [parts[0]] + parts[1..] == parts;
    }
  }

  /** `trimStart`. */
  function TrimStart(s: string): string
  {
    if |s| > 0 && IsWhitespace(s[0]) then TrimStart(s[1..]) else s
  }

  /** `trimEnd`. */
  function TrimEnd(s: string): string
  {
    if |s| > 0 && IsWhitespace(s[|s| - 1]) then TrimEnd(s[..|s| - 1]) else s
  }

  /** `trim`. */
  function Trim(s: string): string
  {
    TrimEnd(TrimStart(s))
  }

  /** `trimStart` drops exactly the leading whitespace: what it removes is
      whitespace and what it keeps does not start with whitespace. */
  lemma {:induction false} TrimStartDropsLeading(s: string)
    ensures var r := TrimStart(s);
            && |r| <= |s| && r == s[|s| - |r|..]
            && (forall i :: 0 <= i < |s| - |r| ==> IsWhitespace(s[i]))
            && (|r| > 0 ==> !IsWhitespace(r[0]))
  {
    if |s| > 0 && IsWhitespace(s[0]) {
      TrimStartDropsLeading(s[1..]);
    }
  }

  /** `trimEnd` drops exactly the trailing whitespace. */
  lemma {:induction false} TrimEndDropsTrailing(s: string)
    ensures var r := TrimEnd(s);
            && |r| <= |s| && r == s[..|r|]
            && (forall i :: |r| <= i < |s| ==> IsWhitespace(s[i]))
            && (|r| > 0 ==> !IsWhitespace(r[|r| - 1]))
  {
    if |s| > 0 && IsWhitespace(s[|s| - 1]) {
      TrimEndDropsTrailing(s[..|s| - 1]);
    }
  }

  /** Neither end of `s` is whitespace. */
  predicate IsTrimmed(s: string) {
    |s| == 0 || (!IsWhitespace(s[0]) && !IsWhitespace(s[|s| - 1]))
  }

  /** `trim` returns the slice of its input between the leading and the
      trailing whitespace: the result has no whitespace at either end, and
      the input is that result with only whitespace around it. */
  lemma TrimIsCentralSlice(s: string)
    ensures IsTrimmed(Trim(s))
    ensures exists i, j ::
              && 0 <= i <= j <= |s| && Trim(s) == s[i..j]
              && (forall k :: 0 <= k < i ==> IsWhitespace(s[k]))
              && (forall k :: j <= k < |s| ==> IsWhitespace(s[k]))
  {
    var t := TrimStart(s);
    var i := |s| - |t|;
    var r := TrimEnd(t);
    TrimStartDropsLeading(s);
    TrimEndDropsTrailing(t);
    var j := i + |r|;
    assert r == t[..|r|];
    assert s[i..j] == r;
    forall k | j <= k < |s| ensures IsWhitespace(s[k]) {
      assert s[k] == t[k - i];
    }
    if |r| > 0 {
      assert r[0] == t[0];
    }
  }

  /** `trim` changes exactly the strings that have whitespace at an end. */
  lemma TrimFixesTrimmed(s: string)
    ensures Trim(s) == s <==> IsTrimmed(s)
  {
    TrimIsCentralSlice(s);
    if IsTrimmed(s) && |s| > 0 {
      assert TrimStart(s) == s;
      assert TrimEnd(s) == s;
    }
  }

  /** `!isNaN(parseInt(s, 10))`: after the leading whitespace and an optional
      sign there is at least one decimal digit. */
  predicate ParseIntAccepts(s: string) {
    var t := TrimStart(s);
    || (|t| > 0 && IsDecimalDigit(t[0]))
    || (|t| > 1 && (t[0] == '+' || t[0] == '-') && IsDecimalDigit(t[1]))
  }

  /** `parseInt` accepts a string exactly when, at some position with only
      whitespace before it, there is a digit, or a sign followed by a digit. */
  lemma ParseIntAcceptsIff(s: string)
    ensures ParseIntAccepts(s) <==>
              exists i ::
                && 0 <= i < |s|
                && (forall k :: 0 <= k < i ==> IsWhitespace(s[k]))
                && (|| IsDecimalDigit(s[i])
                    || (i + 1 < |s| && (s[i] == '+' || s[i] == '-') && IsDecimalDigit(s[i + 1])))
  {
    TrimStartDropsLeading(s);
    var t := TrimStart(s);
    var i0 := |s| - |t|;
    if ParseIntAccepts(s) {
      assert t[0] == s[i0];
      if |t| > 1 {
        assert t[1] == s[i0 + 1];
      }
    }
    if exists i ::
         && 0 <= i < |s|
         && (forall k :: 0 <= k < i ==> IsWhitespace(s[k]))
         && (|| IsDecimalDigit(s[i])
             || (i + 1 < |s| && (s[i] == '+' || s[i] == '-') && IsDecimalDigit(s[i + 1])))
    {
      var i :| && 0 <= i < |s|
               && (forall k :: 0 <= k < i ==> IsWhitespace(s[k]))
               && (|| IsDecimalDigit(s[i])
                   || (i + 1 < |s| && (s[i] == '+' || s[i] == '-') && IsDecimalDigit(s[i + 1])));
      assert i == i0;
      assert t[0] == s[i];
      if i + 1 < |s| {
        assert t[1] == s[i + 1];
      }
    }
  }

  /** Leading whitespace and one sign are allowed; a second sign, a letter
      first, or no digit at all is not. */
  lemma ParseIntExamples()
    ensures ParseIntAccepts(" +7") && ParseIntAccepts("12abc") && ParseIntAccepts("0")
    ensures !ParseIntAccepts("+-7") && !ParseIntAccepts("x1") && !ParseIntAccepts("") && !ParseIntAccepts(" ")
  {
  }

  /** The largest integer a JavaScript number holds exactly. */
  const MaxSafeInteger: nat := 9007199254740991

  type SafeIndex = n: nat | n <= MaxSafeInteger

  /** The number a string of decimal digits denotes. */
  function DigitsValue(s: string): nat
    requires forall i :: 0 <= i < |s| ==> IsDecimalDigit(s[i])
  {
    if |s| == 0 then 0
    else
      assert IsDecimalDigit(s[|s| - 1]);
      10 * DigitsValue(s[..|s| - 1]) + (s[|s| - 1] as int - '0' as int)
  }

  /** `String(n)` for a non-negative safe integer: the digits of `n` in the
      canonical form, without leading zeros. */
  function DecimalString(n: nat): (r: string)
    ensures |r| > 0
    ensures forall i :: 0 <= i < |r| ==> IsDecimalDigit(r[i])
    ensures DigitsValue(r) == n
    ensures n == 0 ==> r == "0"
    ensures n > 0 ==> r[0] != '0'
    decreases n
  {
    var d := ['0' + (n % 10) as char];
    if n < 10 then d
    else
      var high := DecimalString(n / 10);
      assert (high + d)[..|high + d| - 1] == high;
      high + d
  }

  /** Distinct indices give distinct property keys. */
  lemma DecimalStringInjective(m: nat, n: nat)
    ensures DecimalString(m) == DecimalString(n) <==> m == n
  {
  }
}
