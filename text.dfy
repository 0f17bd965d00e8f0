/** The string operations the protocol code relies on: decimal formatting
    (JavaScript's number-to-string on integers), `parseInt` on decimal text,
    `indexOf('\r\n')`, `split(' ')` and `slice`. */
module Text {
  import opened Base

  predicate IsDigit(c: char) {
    '0' <= c <= '9'
  }

  function DigitChar(d: nat): (c: char)
    requires d < 10
    ensures IsDigit(c)
  {
    "0123456789"[d]
  }

  function DigitValue(c: char): (d: nat)
    requires IsDigit(c)
    ensures d < 10
  {
    (c as int) - ('0' as int)
  }

  lemma DigitRoundTrip(d: nat)
    requires d < 10
    ensures DigitValue(DigitChar(d)) == d
  {
  }

  /** Decimal digits of `n`, most significant first, no leading zeros. */
  function NatToString(n: nat): (s: string)
    ensures |s| >= 1 && forall i :: 0 <= i < |s| ==> IsDigit(s[i])
    decreases n
  {
    if n < 10 then [DigitChar(n)] else NatToString(n / 10) + [DigitChar(n % 10)]
  }

  /** How JavaScript prints an integer: a minus sign for negative values. */
  function IntToString(i: int): (s: string)
    ensures |s| >= 1
  {
    if i < 0 then "-" + NatToString(-i) else NatToString(i)
  }

  /** The longest prefix of `s` made of decimal digits. */
  function DigitPrefix(s: string): (d: string)
    ensures |d| <= |s| && d == s[..|d|]
    ensures forall i :: 0 <= i < |d| ==> IsDigit(d[i])
    ensures |d| < |s| ==> !IsDigit(s[|d|])
  {
    if |s| > 0 && IsDigit(s[0]) then [s[0]] + DigitPrefix(s[1..]) else []
  }

  /** The value of a string of decimal digits. */
  function DigitsValue(d: string): nat
    requires forall i :: 0 <= i < |d| ==> IsDigit(d[i])
  {
    if d == [] then 0 else DigitsValue(d[..|d| - 1]) * 10 + DigitValue(d[|d| - 1])
  }

  /** JavaScript's `parseInt` on decimal text: an optional sign and the digits
      that follow it, ignoring anything after them; `None` is the `NaN` that
      text without leading digits yields. */
  function ParseInt(s: string): (r: Option<int>)
    ensures r.None? <==> DigitPrefix(if |s| > 0 && s[0] in "+-" then s[1..] else s) == []
    ensures r.Some? && r.value < 0 ==> |s| > 0 && s[0] == '-'
  {
    var signed := |s| > 0 && s[0] in "+-";
    var d := DigitPrefix(if signed then s[1..] else s);
    if d == [] then None
    else if signed && s[0] == '-' then Some(0 - DigitsValue(d))
    else Some(DigitsValue(d))
  }

  lemma {:induction false} DigitPrefixOfDigits(s: string)
    requires forall i :: 0 <= i < |s| ==> IsDigit(s[i])
    ensures DigitPrefix(s) == s
    decreases |s|
  {
    if |s| > 0 {
      DigitPrefixOfDigits(s[1..]);
    }
  }

  lemma {:induction false} DigitsValueOfNatToString(n: nat)
    ensures DigitsValue(NatToString(n)) == n
    decreases n
  {
    if n >= 10 {
      var s := NatToString(n);
      assert s[..|s| - 1] == NatToString(n / 10);
      DigitsValueOfNatToString(n / 10);
      DigitRoundTrip(n % 10);
    } else {
      DigitRoundTrip(n);
    }
  }

  /** `parseInt` reads back what number-to-string printed. */
  lemma ParseIntOfNatToString(n: nat)
    ensures ParseInt(NatToString(n)) == Some(n)
  {
    var s := NatToString(n);
    assert !(s[0] in "+-");
    DigitPrefixOfDigits(s);
    DigitsValueOfNatToString(n);
  }

  lemma ParseIntOfIntToString(i: int)
    ensures ParseInt(IntToString(i)) == Some(i)
  {
    if i < 0 {
      ParseIntOfNegative(-i);
    } else {
      ParseIntOfNatToString(i);
    }
  }

  lemma ParseIntOfNegative(n: nat)
    ensures ParseInt("-" + NatToString(n)) == Some(0 - n)
  {
    var digits := NatToString(n);
    var s := "-" + digits;
    assert s[1..] == digits;
    DigitPrefixOfDigits(digits);
    DigitsValueOfNatToString(n);
  }

  // ---------------------------------------------------------------- indexOf

  /** A line terminator CR LF starts at index `j` of `s`. */
  predicate CrlfAt(s: string, j: int) {
    0 <= j && j + 1 < |s| && s[j] == '\r' && s[j + 1] == '\n'
  }

  /** `s.indexOf('\r\n')`, searching from index `from`. */
  function FindCrlfFrom(s: string, from: nat): (r: Option<nat>)
    ensures r.Some? ==> from <= r.value && CrlfAt(s, r.value)
    ensures forall j :: from <= j && (r.None? || j < r.value) ==> !CrlfAt(s, j)
    decreases |s| - from
  {
    if from + 1 >= |s| then None
    else if CrlfAt(s, from) then Some(from)
    else FindCrlfFrom(s, from + 1)
  }

  /** `s.indexOf('\r\n')`: the first CR LF, `None` standing for -1. */
  function FindCrlf(s: string): (r: Option<nat>)
    ensures r.Some? ==> CrlfAt(s, r.value)
    ensures forall j :: 0 <= j && (r.None? || j < r.value) ==> !CrlfAt(s, j)
  {
    FindCrlfFrom(s, 0)
  }

  /** Data arriving later never moves a line terminator already found. */
  lemma FindCrlfAppend(x: string, y: string)
    requires FindCrlf(x).Some?
    ensures FindCrlf(x + y) == FindCrlf(x)
  {
    var i := FindCrlf(x).value;
    assert CrlfAt(x + y, i);
    forall j | 0 <= j < i
      ensures !CrlfAt(x + y, j)
    {
      assert !CrlfAt(x, j);
    }
  }

  // ---------------------------------------------------------------- split

  /** The inverse of `Split`: the parts with one separator between each two. */
  function JoinWith(parts: seq<string>, sep: char): string
    requires |parts| >= 1
  {
    if |parts| == 1 then parts[0] else parts[0] + [sep] + JoinWith(parts[1..], sep)
  }

  /** JavaScript's `s.split(sep)` for a one-character separator: every
      occurrence cuts, so empty parts survive and the result is never empty. */
  function Split(s: string, sep: char): (parts: seq<string>)
    ensures |parts| >= 1
    ensures forall i :: 0 <= i < |parts| ==> sep !in parts[i]
    ensures JoinWith(parts, sep) == s
    decreases |s|
  {
    if s == [] then [""]
    else
      var rest := Split(s[1..], sep);
      if s[0] == sep then
        assert s == [] + [sep] + JoinWith(rest, sep);
        [""] + rest
      else
        SplitConsPart(s[0], rest, sep);
        assert s == [s[0]] + s[1..];
        [[s[0]] + rest[0]] + rest[1..]
  }

  lemma SplitConsPart(c: char, parts: seq<string>, sep: char)
    requires |parts| >= 1
    ensures JoinWith([[c] + parts[0]] + parts[1..], sep) == [c] + JoinWith(parts, sep)
  {
    var q := [[c] + parts[0]] + parts[1..];
    assert q[1..] == parts[1..];
  }

  /** Splitting text that was joined from separator-free parts gives the parts back. */
  lemma {:induction false} SplitJoinWith(parts: seq<string>, sep: char)
    requires |parts| >= 1
    requires forall i :: 0 <= i < |parts| ==> sep !in parts[i]
    ensures Split(JoinWith(parts, sep), sep) == parts
    decreases |parts|
  {
    if |parts| == 1 {
      SplitWord(parts[0], [], sep);
      assert parts[0] + [] == parts[0];
    } else {
      SplitJoinWith(parts[1..], sep);
      var t := [sep] + JoinWith(parts[1..], sep);
      assert JoinWith(parts, sep) == parts[0] + t;
      SplitWord(parts[0], t, sep);
      assert t[1..] == JoinWith(parts[1..], sep);
      assert Split(t, sep) == [""] + parts[1..];
      assert parts[0] + "" == parts[0];
      assert parts == [parts[0]] + parts[1..];
    }
  }

  /** A separator-free word in front of `t` extends the first part of `Split(t)`. */
  lemma {:induction false} SplitWord(w: string, t: string, sep: char)
    requires sep !in w
    ensures Split(w + t, sep) == [w + Split(t, sep)[0]] + Split(t, sep)[1..]
    decreases |w|
  {
    if w == [] {
      assert w + t == t;
      assert w + Split(t, sep)[0] == Split(t, sep)[0];
      assert Split(t, sep) == [Split(t, sep)[0]] + Split(t, sep)[1..];
    } else {
      SplitWord(w[1..], t, sep);
      assert (w + t)[1..] == w[1..] + t;
      assert w + t == [w[0]] + (w[1..] + t);
      assert [w[0]] + (w[1..] + Split(t, sep)[0]) == w + Split(t, sep)[0];
    }
  }

  /** The index JavaScript's `slice` makes of a number: `NaN` (here `None`)
      is 0, a negative index counts from the end, and both are clamped to
      the string. */
  function JsIndex(i: Option<int>, len: nat): (j: nat)
    ensures j <= len
    ensures i.Some? && 0 <= i.value <= len ==> j == i.value
  {
    match i
    case None => 0
    case Some(n) => if n < 0 then (if len + n < 0 then 0 else len + n) else (if n > len then len else n)
  }

  /** `s.slice(a, b)`: both ends made indices as `JsIndex` says, and the empty
      string when the end does not come after the start. */
  function JsSlice(s: string, a: Option<int>, b: Option<int>): (r: string)
    ensures |r| <= |s|
  {
    var from, to := JsIndex(a, |s|), JsIndex(b, |s|);
    if to <= from then "" else s[from..to]
  }

  /** `s.slice(0, b)` is the prefix up to the index of `b`, and `s.slice(a)`
      the suffix from the index of `a`. */
  lemma JsSlicePrefixSuffix(s: string, a: Option<int>, b: Option<int>)
    ensures JsSlice(s, Some(0), b) == s[..JsIndex(b, |s|)]
    ensures JsSlice(s, a, Some(|s|)) == s[JsIndex(a, |s|)..]
  {
  }
}
