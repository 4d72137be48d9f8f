/**
 * Values shared by every part of the model: optional values and results,
 * the Python exception kinds the application can raise, CSV cells, and the
 * few string operations of Python's `str` that the application relies on.
 */
module Common {

  datatype Option<+T> = None | Some(value: T)

  datatype Result<+T, +E> = Ok(value: T) | Err(error: E)

  /** Whether a step ran to completion or raised. */
  datatype Outcome = Pass | Fail(error: Error)

  /** The exception kinds the application raises or catches. */
  datatype Error =
    | AttributeError            // a query outside a `with` block, or `.strip()` on a NULL name
    | IntegrityError            // a UNIQUE, PRIMARY KEY or FOREIGN KEY violation
    | OperationalError          // the database file cannot be opened, or a nested BEGIN
    | KeyError(key: string)     // a DataFrame column that is absent
    | ValueError(text: string)  // `int()` applied to text that is not an integer
    | IndexError                // a list indexed past its end
    | FileNotFoundError(path: string)

  /** One CSV cell as pandas reads it: `None` is a missing value (NaN). */
  type Cell = Option<string>

  /** The characters Python's `str.strip()` removes. */
  predicate IsSpace(c: char)
  {
    c == ' ' || '\t' <= c <= '\r' || '\U{1c}' <= c <= '\U{1f}' || c == '\U{85}' || c == '\U{a0}'
    || c == '\U{1680}' || '\U{2000}' <= c <= '\U{200a}' || c == '\U{2028}' || c == '\U{2029}'
    || c == '\U{202f}' || c == '\U{205f}' || c == '\U{3000}'
  }

  /** `s.lstrip()` */
  function TrimLeft(s: string): (r: string)
    ensures |r| <= |s|
    ensures forall i :: 0 <= i < |s| - |r| ==> IsSpace(s[i])
    ensures r == [] || !IsSpace(r[0])
    ensures s == [] || !IsSpace(s[0]) ==> r == s
  {
    if s != [] && IsSpace(s[0]) then TrimLeft(s[1..]) else s
  }

  /** `s.rstrip()` */
  function TrimRight(s: string): (r: string)
    ensures |r| <= |s| && r == s[..|r|]
    ensures forall i :: |r| <= i < |s| ==> IsSpace(s[i])
    ensures r == [] || !IsSpace(r[|r| - 1])
  {
    if s != [] && IsSpace(s[|s| - 1]) then TrimRight(s[..|s| - 1]) else s
  }

  /** `s.strip()`: `s` without its leading and trailing whitespace. */
  function Strip(s: string): (r: string)
    ensures r == [] || (!IsSpace(r[0]) && !IsSpace(r[|r| - 1]))
    ensures |r| <= |s|
    ensures (s == [] || (!IsSpace(s[0]) && !IsSpace(s[|s| - 1]))) ==> r == s
  {
    TrimRight(TrimLeft(s))
  }

  /** `s.lstrip()` is a suffix of `s`. */
  lemma {:induction false} TrimLeftSuffix(s: string)
    ensures TrimLeft(s) == s[|s| - |TrimLeft(s)|..]
  {
    if s != [] && IsSpace(s[0]) {
      TrimLeftSuffix(s[1..]);
      assert s[1..][|s[1..]| - |TrimLeft(s[1..])|..] == s[|s| - |TrimLeft(s)|..];
    }
  }

  /** `s.strip()` is the part of `s` between its leading and its trailing white space. */
  lemma StripInfix(s: string)
    ensures exists i, j :: 0 <= i <= j <= |s| && Strip(s) == s[i..j]
                           && (forall k :: 0 <= k < i ==> IsSpace(s[k]))
                           && (forall k :: j <= k < |s| ==> IsSpace(s[k]))
  {
    var t := TrimLeft(s);
    var r := Strip(s);
    TrimLeftSuffix(s);
    var i := |s| - |t|;
    var j := i + |r|;
    assert r == TrimRight(t) == t[..|r|];
    assert r == s[i..j];
    forall k | j <= k < |s| ensures IsSpace(s[k]) {
      assert s[k] == t[k - i];
    }
    assert 0 <= i <= j <= |s| && Strip(s) == s[i..j]
           && (forall k :: 0 <= k < i ==> IsSpace(s[k]))
           && (forall k :: j <= k < |s| ==> IsSpace(s[k]));
  }

  /** `s.split(c)[0]`: the text before the first `c`, or all of `s`. */
  function Before(s: string, c: char): (r: string)
    ensures |r| <= |s| && c !in r && r == s[..|r|]
    ensures |r| < |s| ==> s[|r|] == c
  {
    if s == [] || s[0] == c then [] else [s[0]] + Before(s[1..], c)
  }

  /** `s[:n]` */
  function Take(s: string, n: nat): (r: string)
    ensures |r| == if |s| < n then |s| else n
    ensures r == s[..|r|]
  {
    if |s| <= n then s else s[..n]
  }

  predicate IsDigit(c: char) { '0' <= c <= '9' }

  function DigitValue(c: char): nat
    requires IsDigit(c)
  {
    (c as int - '0' as int) as nat
  }

  function DigitChar(d: nat): (c: char)
    requires d < 10
    ensures IsDigit(c) && DigitValue(c) == d
  {
    ('0' as int + d) as char
  }

  /** The value of a non-empty run of decimal digits. */
  function DigitsValue(s: string): nat
    requires forall i :: 0 <= i < |s| ==> IsDigit(s[i])
  {
    if s == [] then 0 else 10 * DigitsValue(s[..|s| - 1]) + DigitValue(s[|s| - 1])
  }

  /** The decimal digits of `n`, most significant first, with no leading zero. */
  function NatToString(n: nat): (r: string)
    ensures r != [] && forall i :: 0 <= i < |r| ==> IsDigit(r[i])
  {
    if n < 10 then [DigitChar(n)] else NatToString(n / 10) + [DigitChar(n % 10)]
  }

  /** `str(n)` for an integer. */
  function IntToString(n: int): string
  {
    if n < 0 then "-" + NatToString(-n) else NatToString(n)
  }

  /**
   * `int(s)` for a string: surrounding whitespace, then an optional sign,
   * then decimal digits in groups that single underscores may separate;
   * anything else is not an integer.
   */
  function ParseInt(s: string): (r: Option<int>)
    ensures r.Some? ==> Strip(s) != []
  {
    var t := Strip(s);
    if t == [] then None
    else
      var g := GroupsValue(if t[0] == '-' || t[0] == '+' then t[1..] else t);
      if g.None? then None
      else if t[0] == '-' then Some(-(g.value as int))
      else Some(g.value as int)
  }

  /** The value of the digit groups `s`, with the underscores dropped, if `s` is such groups. */
  function GroupsValue(s: string): (r: Option<nat>)
    ensures r.Some? <==> DigitGroups(s)
  {
    if DigitGroups(s) then Some(DigitsValue(DropUnderscores(s))) else None
  }

  predicate AllDigits(s: string)
  {
    forall i :: 0 <= i < |s| ==> IsDigit(s[i])
  }

  /**
   * The digits `int()` accepts: a digit first and last, and in between
   * digits and underscores, never two underscores in a row ("2_015" is 2015;
   * "_1", "1_" and "1__5" are not integers).
   */
  predicate DigitGroups(s: string)
  {
    && s != [] && IsDigit(s[0]) && IsDigit(s[|s| - 1])
    && (forall i :: 0 <= i < |s| ==> IsDigit(s[i]) || s[i] == '_')
    && (forall i :: 0 <= i < |s| - 1 && s[i] == '_' ==> s[i + 1] != '_')
  }

  /** The text without its underscores. */
  function DropUnderscores(s: string): (r: string)
    ensures |r| <= |s| && '_' !in r
    ensures (forall i :: 0 <= i < |s| ==> IsDigit(s[i]) || s[i] == '_') ==> AllDigits(r)
  {
    if s == [] then []
    else DropUnderscores(s[..|s| - 1]) + (if s[|s| - 1] == '_' then [] else [s[|s| - 1]])
  }

  /** Dropping underscores from two pieces is dropping them from each. */
  lemma {:induction false} DropUnderscoresAppend(a: string, b: string)
    ensures DropUnderscores(a + b) == DropUnderscores(a) + DropUnderscores(b)
  {
    if b != [] {
      var c := b[..|b| - 1];
      assert (a + b)[..|a + b| - 1] == a + c;
      assert (a + b)[|a + b| - 1] == b[|b| - 1];
      DropUnderscoresAppend(a, c);
    } else {
      assert a + b == a;
    }
  }

  /** Digits have no underscores to drop. */
  lemma {:induction false} DropUnderscoresOfDigits(d: string)
    requires AllDigits(d)
    ensures DropUnderscores(d) == d
  {
    if d != [] {
      DropUnderscoresOfDigits(d[..|d| - 1]);
      assert d[..|d| - 1] + [d[|d| - 1]] == d;
    }
  }

  /** Text whose stripped form starts with a digit and has a character later that is neither a digit nor '_' is not an integer. */
  lemma ParseIntOfNonDigit(s: string, k: nat)
    requires 0 < k < |Strip(s)| && IsDigit(Strip(s)[0]) && !IsDigit(Strip(s)[k]) && Strip(s)[k] != '_'
    ensures ParseInt(s).None?
  {
    var t := Strip(s);
    assert t[0] != '-' && t[0] != '+';
    assert !DigitGroups(t);
  }

  /** How `int()` reads text that starts with a digit and does not end in white space. */
  lemma ParseIntUnsigned(t: string)
    requires t != [] && IsDigit(t[0]) && !IsSpace(t[|t| - 1])
    ensures ParseInt(t) == if DigitGroups(t) then Some(DigitsValue(DropUnderscores(t))) else None
  {
    DigitIsPlain(t[0]);
  }

  /** Text that starts with '-' and does not end in white space is already stripped. */
  lemma StripOfSigned(t: string)
    requires |t| >= 2 && t[0] == '-' && !IsSpace(t[|t| - 1])
    ensures Strip(t) == t
  {
  }

  /** How `int()` reads stripped text that starts with '-'. */
  lemma ParseIntOfStrippedSigned(t: string)
    requires |t| >= 2 && t[0] == '-' && Strip(t) == t
    ensures ParseInt(t) == (var g := GroupsValue(t[1..]); if g.None? then None else Some(-(g.value as int)))
  {
  }

  /** A minus sign followed by digit groups of value `v` reads as `-v`. */
  lemma ParseIntSigned(d: string, v: nat)
    requires d != [] && !IsSpace(d[|d| - 1]) && GroupsValue(d) == Some(v)
    ensures ParseInt("-" + d) == Some(-(v as int))
  {
    var t := "-" + d;
    assert t[|t| - 1] == d[|d| - 1];
    StripOfSigned(t);
    ParseIntOfStrippedSigned(t);
    assert t[1..] == d;
  }

  /** A run of digits is one group, with nothing to drop. */
  lemma DigitsAreGroups(d: string)
    requires d != [] && AllDigits(d)
    ensures DigitGroups(d) && DropUnderscores(d) == d
  {
    DropUnderscoresOfDigits(d);
  }

  /** Two runs of digits joined by one underscore are groups. */
  lemma JoinedAreGroups(x: string, y: string)
    requires x != [] && AllDigits(x) && y != [] && AllDigits(y)
    ensures DigitGroups(x + "_" + y)
  {
    var s := x + "_" + y;
    assert |s| == |x| + 1 + |y|;
    forall i | 0 <= i < |s| ensures if i == |x| then s[i] == '_' else IsDigit(s[i]) {
      if i < |x| {
        assert s[i] == x[i];
      } else if i > |x| {
        assert s[i] == y[i - |x| - 1];
      }
    }
    assert s[|x| + 1] == y[0];
  }

  /** Dropping the underscore between two runs of digits joins them. */
  lemma JoinedDropped(x: string, y: string)
    requires AllDigits(x) && AllDigits(y)
    ensures DropUnderscores(x + "_" + y) == x + y
  {
    var u := ['_'];
    assert DropUnderscores(u) == [] by {
      assert u[..0] == [];
    }
    DropUnderscoresAppend(x + u, y);
    DropUnderscoresAppend(x, u);
    DropUnderscoresOfDigits(x);
    DropUnderscoresOfDigits(y);
    assert DropUnderscores(x + u) == x;
  }

  /** Two runs of digits joined by one underscore read as the digits of both: "2015_16" is 201516. */
  lemma ParseIntOfGrouped(x: string, y: string)
    requires x != [] && AllDigits(x) && y != [] && AllDigits(y)
    ensures ParseInt(x + "_" + y) == Some(DigitsValue(x + y))
  {
    var s := x + "_" + y;
    DigitIsPlain(y[|y| - 1]);
    assert s[0] == x[0] && s[|s| - 1] == y[|y| - 1];
    ParseIntUnsigned(s);
    JoinedAreGroups(x, y);
    JoinedDropped(x, y);
  }

  lemma {:induction false} DigitsValueOfNatToString(n: nat)
    ensures DigitsValue(NatToString(n)) == n
  {
    if n >= 10 {
      var s := NatToString(n);
      DigitsValueOfNatToString(n / 10);
      assert s[..|s| - 1] == NatToString(n / 10);
    }
  }

  /** `int(str(n)) == n`: the two conversions are inverse. */
  lemma ParseIntOfIntToString(n: int)
    ensures ParseInt(IntToString(n)) == Some(n)
  {
    var m: nat := if n < 0 then -n else n;
    var d := NatToString(m);
    DigitsValueOfNatToString(m);
    if n < 0 {
      assert GroupsValue(d) == Some(m) by { DigitsAreGroups(d); }
      DigitIsPlain(d[|d| - 1]);
      ParseIntSigned(d, m);
    } else {
      ParseIntOfDigits(d);
      assert ParseInt(d) == Some(m);
    }
  }

  /** A digit is neither white space nor a sign. */
  lemma DigitIsPlain(c: char)
    requires IsDigit(c)
    ensures !IsSpace(c) && c != '-' && c != '+'
  {
  }

  /** Digits read as their value. */
  lemma ParseIntOfDigits(d: string)
    requires d != [] && AllDigits(d)
    ensures ParseInt(d) == Some(DigitsValue(d))
  {
    DigitIsPlain(d[|d| - 1]);
    ParseIntUnsigned(d);
    DigitsAreGroups(d);
  }

  /** A calendar date as `pd.to_datetime` produces it. */
  datatype Date = Date(year: int, month: int, day: int)

  predicate ValidDate(d: Date)
  {
    1000 <= d.year <= 9999 && 1 <= d.month <= 12 && 1 <= d.day <= 31
  }

  type CalendarDate = d: Date | ValidDate(d) witness Date(1970, 1, 1)

  /** `n` written with exactly `width` digits, zero-padded on the left. */
  function PadDigits(n: nat, width: nat): (r: string)
    ensures |r| == width && forall i :: 0 <= i < width ==> IsDigit(r[i])
  {
    if width == 0 then [] else PadDigits(n / 10, width - 1) + [DigitChar(n % 10)]
  }

  lemma {:induction false} DigitsValueOfPadDigits(n: nat, width: nat)
    requires n < Pow10(width)
    ensures DigitsValue(PadDigits(n, width)) == n
  {
    if width > 0 {
      var s := PadDigits(n, width);
      assert s[..|s| - 1] == PadDigits(n / 10, width - 1);
      DigitsValueOfPadDigits(n / 10, width - 1);
    }
  }

  function Pow10(k: nat): nat
  {
    if k == 0 then 1 else 10 * Pow10(k - 1)
  }

  /** `strftime('%Y-%m-%d')` */
  function FormatDate(d: CalendarDate): (r: string)
    ensures |r| == 10 && r[4] == '-' && r[7] == '-'
    ensures forall i :: 0 <= i < 10 && i != 4 && i != 7 ==> IsDigit(r[i])
  {
    PadDigits(d.year, 4) + "-" + PadDigits(d.month, 2) + "-" + PadDigits(d.day, 2)
  }

  /** Reads a `YYYY-MM-DD` string back into a date. */
  function ParseIsoDate(s: string): Option<CalendarDate>
  {
    if |s| == 10 && s[4] == '-' && s[7] == '-'
       && (forall i :: 0 <= i < 10 && i != 4 && i != 7 ==> IsDigit(s[i]))
    then
      var d := Date(DigitsValue(s[..4]), DigitsValue(s[5..7]), DigitsValue(s[8..]));
      if ValidDate(d) then Some(d) else None
    else None
  }

  /** Every injury date the model stores reads back as the date it was parsed to. */
  lemma FormatDateRoundTrip(d: CalendarDate)
    ensures ParseIsoDate(FormatDate(d)) == Some(d)
  {
    var s := FormatDate(d);
    assert Pow10(2) == 100 && Pow10(4) == 10000;
    assert s[..4] == PadDigits(d.year, 4);
    assert s[5..7] == PadDigits(d.month, 2);
    assert s[8..] == PadDigits(d.day, 2);
    DigitsValueOfPadDigits(d.year, 4);
    DigitsValueOfPadDigits(d.month, 2);
    DigitsValueOfPadDigits(d.day, 2);
  }
}
