/** Strings as the to-do list's Python built-ins see them: `str.strip()`,
    `int()` on a base-10 answer, decimal digits and the hard prefix cut `s[:n]`. */
module Text {

  datatype Option<T> = None | Some(value: T)

  /** The two whitespace sets in play. `str.strip()` and the regular-expression
      class `\s` use every character `str.isspace()` accepts; `int()` copies
      ASCII characters as they are and then skips only C whitespace, so the
      separators U+001C..U+001F are not blank to it. */
  datatype Blanks = StrBlanks | IntBlanks

  /** `str.isspace()` on a single character. */
  predicate IsSpace(c: char) {
    ('\t' <= c <= '\r') || ('\U{1C}' <= c <= ' ') || c == '\U{85}' || c == '\U{A0}'
    || c == '\U{1680}' || ('\U{2000}' <= c <= '\U{200A}') || c == '\U{2028}'
    || c == '\U{2029}' || c == '\U{202F}' || c == '\U{205F}' || c == '\U{3000}'
  }

  predicate IsBlank(c: char, b: Blanks) {
    IsSpace(c) && (b == IntBlanks ==> !('\U{1C}' <= c <= '\U{1F}'))
  }

  predicate AllBlank(s: string, b: Blanks) {
    forall k :: 0 <= k < |s| ==> IsBlank(s[k], b)
  }

  /** Length of the blank run at the front of `s`. */
  function LeadingBlanks(s: string, b: Blanks): (n: nat)
    ensures n <= |s|
    ensures forall k :: 0 <= k < n ==> IsBlank(s[k], b)
    ensures n < |s| ==> !IsBlank(s[n], b)
  {
    if s != [] && IsBlank(s[0], b) then 1 + LeadingBlanks(s[1..], b) else 0
  }

  /** Length of the blank run at the back of `s`. */
  function TrailingBlanks(s: string, b: Blanks): (n: nat)
    ensures n <= |s|
    ensures forall k :: |s| - n <= k < |s| ==> IsBlank(s[k], b)
    ensures n < |s| ==> !IsBlank(s[|s| - 1 - n], b)
  {
    if s != [] && IsBlank(s[|s| - 1], b) then 1 + TrailingBlanks(s[..|s| - 1], b) else 0
  }

  /** Removes the blanks at both ends, one character at a time. */
  function Trim(s: string, b: Blanks): (r: string)
    ensures |r| <= |s|
    decreases |s|
  {
    if s != [] && IsBlank(s[0], b) then Trim(s[1..], b)
    else if s != [] && IsBlank(s[|s| - 1], b) then Trim(s[..|s| - 1], b)
    else s
  }

  /** The trimmed text is empty exactly when `s` is all blank, otherwise it
      starts and ends with a character that is not blank, and it is what
      follows the leading blanks of `s` up to a blank suffix. */
  lemma {:induction false} TrimShape(s: string, b: Blanks)
    ensures Trim(s, b) == [] <==> AllBlank(s, b)
    ensures var r := Trim(s, b); r != [] ==> !IsBlank(r[0], b) && !IsBlank(r[|r| - 1], b)
    ensures var r, i := Trim(s, b), LeadingBlanks(s, b);
      i + |r| <= |s| && s[i..i + |r|] == r && AllBlank(s[..i], b) && AllBlank(s[i + |r|..], b)
  {
    TrimEmptyIff(s, b);
    TrimEnds(s, b);
    TrimSlice(s, b);
  }

  lemma {:induction false} TrimEmptyIff(s: string, b: Blanks)
    ensures Trim(s, b) == [] <==> AllBlank(s, b)
    decreases |s|
  {
    if s != [] && IsBlank(s[0], b) {
      var t := s[1..];
      TrimEmptyIff(t, b);
      if AllBlank(t, b) {
        forall k | 0 <= k < |s| ensures IsBlank(s[k], b) {
          if k > 0 { assert s[k] == t[k - 1]; }
        }
      }
    } else if s != [] && IsBlank(s[|s| - 1], b) {
      var t := s[..|s| - 1];
      TrimEmptyIff(t, b);
      if |t| > 0 { assert t[0] == s[0]; }
    } else if s != [] {
      assert !IsBlank(s[0], b);
    }
  }

  lemma {:induction false} TrimEnds(s: string, b: Blanks)
    ensures var r := Trim(s, b); r != [] ==> !IsBlank(r[0], b) && !IsBlank(r[|r| - 1], b)
    decreases |s|
  {
    if s != [] && IsBlank(s[0], b) {
      TrimEnds(s[1..], b);
    } else if s != [] && IsBlank(s[|s| - 1], b) {
      TrimEnds(s[..|s| - 1], b);
    }
  }

  lemma {:induction false} TrimSlice(s: string, b: Blanks)
    ensures var r, i := Trim(s, b), LeadingBlanks(s, b);
      i + |r| <= |s| && s[i..i + |r|] == r && AllBlank(s[..i], b) && AllBlank(s[i + |r|..], b)
    decreases |s|, 1
  {
    if s != [] && IsBlank(s[0], b) {
      TrimSliceFront(s, b);
    } else if s != [] && IsBlank(s[|s| - 1], b) {
      TrimSliceBack(s, b);
    } else {
      assert s[0..|s|] == s && s[..0] == [] && s[|s|..] == [];
    }
  }

  lemma {:induction false} TrimSliceFront(s: string, b: Blanks)
    requires s != [] && IsBlank(s[0], b)
    ensures var r, i := Trim(s, b), LeadingBlanks(s, b);
      i + |r| <= |s| && s[i..i + |r|] == r && AllBlank(s[..i], b) && AllBlank(s[i + |r|..], b)
    decreases |s|, 0
  {
    var t := s[1..];
    TrimSlice(t, b);
    assert Trim(s, b) == Trim(t, b);
    assert LeadingBlanks(s, b) == LeadingBlanks(t, b) + 1;
    SliceAfterBlank(s, b, Trim(t, b), LeadingBlanks(t, b));
  }

  lemma {:induction false} TrimSliceBack(s: string, b: Blanks)
    requires s != [] && !IsBlank(s[0], b) && IsBlank(s[|s| - 1], b)
    ensures var r, i := Trim(s, b), LeadingBlanks(s, b);
      i + |r| <= |s| && s[i..i + |r|] == r && AllBlank(s[..i], b) && AllBlank(s[i + |r|..], b)
    decreases |s|, 0
  {
    var t := s[..|s| - 1];
    TrimSlice(t, b);
    assert t[0] == s[0];
    SliceBeforeBlank(s, b, Trim(s, b), LeadingBlanks(t, b));
  }

  /** A slice of `s[1..]` between blanks is one of `s` when `s[0]` is blank. */
  lemma {:induction false} SliceAfterBlank(s: string, b: Blanks, r: string, i: nat)
    requires s != [] && IsBlank(s[0], b)
    requires var t := s[1..];
      i <= |t| - |r| && t[i..i + |r|] == r && AllBlank(t[..i], b) && AllBlank(t[i + |r|..], b)
    ensures i + 1 <= |s| - |r| && s[i + 1..i + 1 + |r|] == r
    ensures AllBlank(s[..i + 1], b) && AllBlank(s[i + 1 + |r|..], b)
  {
    var t := s[1..];
    assert s[i + 1..i + 1 + |r|] == t[i..i + |r|];
    assert s[i + 1 + |r|..] == t[i + |r|..];
    var lead := s[..i + 1];
    forall k | 0 <= k < |lead| ensures IsBlank(lead[k], b) {
      if k > 0 { assert lead[k] == t[..i][k - 1]; }
    }
  }

  /** A slice of `s[..|s| - 1]` between blanks is one of `s` when its last character is blank. */
  lemma {:induction false} SliceBeforeBlank(s: string, b: Blanks, r: string, i: nat)
    requires s != [] && IsBlank(s[|s| - 1], b)
    requires var t := s[..|s| - 1];
      i <= |t| - |r| && t[i..i + |r|] == r && AllBlank(t[..i], b) && AllBlank(t[i + |r|..], b)
    ensures i <= |s| - |r| && s[i..i + |r|] == r
    ensures AllBlank(s[..i], b) && AllBlank(s[i + |r|..], b)
  {
    var t := s[..|s| - 1];
    assert s[i..i + |r|] == t[i..i + |r|];
    assert s[..i] == t[..i];
    var trail := s[i + |r|..];
    forall k | 0 <= k < |trail| ensures IsBlank(trail[k], b) {
      if k < |trail| - 1 { assert trail[k] == t[i + |r|..][k]; }
    }
  }

  /** Python's `str.strip()` with no argument; `StripShape` says what it is. */
  function Strip(s: string): (r: string)
    ensures |r| <= |s|
  {
    Trim(s, StrBlanks)
  }

  /** What `str.strip()` returns: empty exactly for an all-whitespace text,
      and otherwise the part of `s` after its leading whitespace that starts
      and ends with a character that is not whitespace, with only whitespace
      after it. */
  lemma StripShape(s: string)
    ensures Strip(s) == [] <==> forall k :: 0 <= k < |s| ==> IsSpace(s[k])
    ensures var r := Strip(s); r != [] ==> !IsSpace(r[0]) && !IsSpace(r[|r| - 1])
    ensures var r, i := Strip(s), LeadingBlanks(s, StrBlanks);
      i + |r| <= |s| && s[i..i + |r|] == r
      && (forall k :: 0 <= k < i ==> IsSpace(s[k]))
      && (forall k :: i + |r| <= k < |s| ==> IsSpace(s[k]))
  {
    TrimShape(s, StrBlanks);
    var r, i := Strip(s), LeadingBlanks(s, StrBlanks);
    forall k | i + |r| <= k < |s| ensures IsSpace(s[k]) {
      assert s[k] == s[i + |r|..][k - i - |r|];
    }
  }

  /** Trimming twice is trimming once. */
  lemma {:induction false} TrimIdempotent(s: string, b: Blanks)
    ensures Trim(Trim(s, b), b) == Trim(s, b)
  {
    TrimShape(s, b);
    TrimFixpoint(Trim(s, b), b);
  }

  /** A string is its own trim exactly when it is empty or starts and ends
      with a character that is not blank. */
  lemma {:induction false} TrimFixpoint(s: string, b: Blanks)
    ensures Trim(s, b) == s <==> s == [] || (!IsBlank(s[0], b) && !IsBlank(s[|s| - 1], b))
  {
  }

  predicate IsDigit(c: char) {
    '0' <= c <= '9'
  }

  predicate AllDigits(s: string) {
    forall k :: 0 <= k < |s| ==> IsDigit(s[k])
  }

  function DigitValue(c: char): nat
    requires IsDigit(c)
  {
    (c as int) - ('0' as int)
  }

  function DigitChar(n: nat): (c: char)
    requires n < 10
    ensures IsDigit(c) && DigitValue(c) == n
  {
    (48 + n) as char
  }

  /** The number a string of decimal digits denotes. */
  function DigitsValue(s: string): nat
    requires AllDigits(s)
    decreases |s|
  {
    if s == [] then 0 else DigitsValue(s[..|s| - 1]) * 10 + DigitValue(s[|s| - 1])
  }

  /** The shortest decimal numeral of `n`, as `str(n)` writes it. */
  function Decimal(n: nat): (r: string)
    ensures r != [] && AllDigits(r)
    ensures |r| > 1 ==> r[0] != '0'
    decreases n
  {
    if n < 10 then [DigitChar(n)] else Decimal(n / 10) + [DigitChar(n % 10)]
  }

  /** Reading back the numeral `str(n)` gives `n`. */
  lemma {:induction false} DecimalRoundTrip(n: nat)
    ensures DigitsValue(Decimal(n)) == n
  {
    if n >= 10 {
      var s := Decimal(n);
      assert s[..|s| - 1] == Decimal(n / 10);
      DecimalRoundTrip(n / 10);
    }
  }

  /** The most digits `int()` reads in base 10: longer numerals raise
      `ValueError`, the default limit of Python's integer string conversion
      (Python 3.11 on, and the security releases of 3.7 to 3.10). */
  const MaxStrDigits: nat := 4300

  /** Digits and underscores in which every underscore is followed by a
      digit: what `int()` accepts after the first digit of a numeral. */
  predicate Grouped(t: string) {
    forall k {:trigger t[k]} :: 0 <= k < |t| ==> IsDigit(t[k]) || (t[k] == '_' && k + 1 < |t| && IsDigit(t[k + 1]))
  }

  /** `t` with its underscores removed. */
  function Unscored(t: string): (r: string)
    ensures |r| <= |t|
  {
    if t == [] then [] else (if t[0] == '_' then [] else [t[0]]) + Unscored(t[1..])
  }

  /** The digits of `t` when it is `Grouped`, as Python's `int()` reads them
      for base 10. */
  function GroupDigits(t: string): (r: Option<string>)
    ensures r.Some? <==> Grouped(t)
    ensures r.Some? ==> r.value == Unscored(t) && AllDigits(r.value)
    ensures AllDigits(t) ==> r == Some(t)
  {
    if t == [] then Some([])
    else
      GroupedStep(t);
      DigitsStep(t);
      if IsDigit(t[0]) || (t[0] == '_' && |t| >= 2 && IsDigit(t[1])) then
        match GroupDigits(t[1..])
        case None => None
        case Some(ds) =>
          Some(if t[0] == '_' then ds else [t[0]] + ds)
      else
        None
  }

  lemma {:induction false} GroupedStep(t: string)
    requires t != []
    ensures Grouped(t) <==>
      (IsDigit(t[0]) || (t[0] == '_' && |t| >= 2 && IsDigit(t[1]))) && Grouped(t[1..])
  {
    var u := t[1..];
    if (IsDigit(t[0]) || (t[0] == '_' && |t| >= 2 && IsDigit(t[1]))) && Grouped(u) {
      forall k | 0 <= k < |t|
        ensures IsDigit(t[k]) || (t[k] == '_' && k + 1 < |t| && IsDigit(t[k + 1]))
      {
        if k > 0 {
          assert t[k] == u[k - 1];
          if k + 1 < |t| { assert t[k + 1] == u[k]; }
        }
      }
    }
    if Grouped(t) {
      forall k | 0 <= k < |u| ensures IsDigit(u[k]) || (u[k] == '_' && k + 1 < |u| && IsDigit(u[k + 1])) {
        assert u[k] == t[k + 1];
      }
    }
  }

  /** A text splits into its first character and the rest, which are all
      digits when it is, and whose underscores are those of the rest plus
      the first character's. */
  lemma {:induction false} DigitsStep(t: string)
    requires t != []
    ensures t == [t[0]] + t[1..]
    ensures AllDigits(t) <==> IsDigit(t[0]) && AllDigits(t[1..])
    ensures Unscored(t) == (if t[0] == '_' then [] else [t[0]]) + Unscored(t[1..])
  {
    assert t == [t[0]] + t[1..];
    if IsDigit(t[0]) && AllDigits(t[1..]) {
      forall k | 0 <= k < |t| ensures IsDigit(t[k]) {
        if k > 0 { assert t[k] == t[1..][k - 1]; }
      }
    }
  }

  lemma {:induction false} UnscoredConcat(a: string, b: string)
    ensures Unscored(a + b) == Unscored(a) + Unscored(b)
    decreases |a|
  {
    if a != [] {
      assert (a + b)[1..] == a[1..] + b;
      UnscoredConcat(a[1..], b);
    } else {
      assert a + b == b;
    }
  }

  /** Python's `int(raw)`: `None` stands for the `ValueError` it raises. */
  function ParseInt(raw: string): (r: Option<int>)
    ensures AllBlank(raw, IntBlanks) ==> r.None?
  {
    TrimShape(raw, IntBlanks);
    ParseSigned(Trim(raw, IntBlanks))
  }

  /** An optional `+` or `-` followed by digit groups. */
  function ParseSigned(s: string): Option<int> {
    if s != [] && (s[0] == '+' || s[0] == '-') then
      match ParseDigitGroups(s[1..])
      case None => None
      case Some(n) => Some(if s[0] == '-' then -(n as int) else n)
    else
      match ParseDigitGroups(s)
      case None => None
      case Some(n) => Some(n)
  }

  /** A digit, then digit groups, and no more digits than the limit. */
  function ParseDigitGroups(s: string): Option<nat> {
    if s == [] || !IsDigit(s[0]) then None
    else
      match GroupDigits(s)
      case None => None
      case Some(ds) => if |ds| > MaxStrDigits then None else Some(DigitsValue(ds))
  }

  /** Typing the numeral of a number gives that number back. */
  lemma {:induction false} DecimalParses(n: nat)
    requires |Decimal(n)| <= MaxStrDigits
    ensures ParseInt(Decimal(n)) == Some(n)
  {
    DecimalRoundTrip(n);
    NumeralParses(Decimal(n));
  }

  /** A plain numeral reads as its value. */
  lemma {:induction false} NumeralParses(d: string)
    requires d != [] && AllDigits(d) && |d| <= MaxStrDigits
    ensures ParseInt(d) == Some(DigitsValue(d) as int)
  {
    assert !IsBlank(d[0], IntBlanks);
    TrimFixpoint(d, IntBlanks);
  }

  /** A sign followed by a plain numeral reads as that numeral's value, signed. */
  lemma {:induction false} SignedNumeralParses(sign: char, d: string)
    requires sign == '+' || sign == '-'
    requires d != [] && AllDigits(d) && |d| <= MaxStrDigits
    ensures ParseInt([sign] + d) == Some(if sign == '-' then -(DigitsValue(d) as int) else DigitsValue(d))
  {
    var s := [sign] + d;
    SignedNumeralIsTrimmed(sign, d);
    assert ParseInt(s) == ParseSigned(s);
    assert s[1..] == d;
  }

  lemma {:induction false} SignedNumeralIsTrimmed(sign: char, d: string)
    requires sign == '+' || sign == '-'
    requires d != [] && AllDigits(d)
    ensures Trim([sign] + d, IntBlanks) == [sign] + d
  {
    var s := [sign] + d;
    assert s[|s| - 1] == d[|d| - 1];
    TrimFixpoint(s, IntBlanks);
  }

  /** A numeral longer than the limit is refused, however it is written. */
  lemma {:induction false} LongNumeralRefused(d: string)
    requires d != [] && AllDigits(d) && |d| > MaxStrDigits
    ensures ParseInt(d).None?
  {
    ParseIntOfTrimmed(d);
  }

  /** So is a signed one. */
  lemma {:induction false} LongSignedNumeralRefused(sign: char, d: string)
    requires sign == '+' || sign == '-'
    requires d != [] && AllDigits(d) && |d| > MaxStrDigits
    ensures ParseInt([sign] + d).None?
  {
    var s := [sign] + d;
    assert s[|s| - 1] == d[|d| - 1];
    ParseIntOfTrimmed(s);
    assert s[1..] == d;
  }

  /** `int()` of a text with no blank at either end reads the text itself. */
  lemma {:induction false} ParseIntOfTrimmed(s: string)
    requires s != [] && !IsBlank(s[0], IntBlanks) && !IsBlank(s[|s| - 1], IntBlanks)
    ensures ParseInt(s) == ParseSigned(s)
  {
    TrimFixpoint(s, IntBlanks);
  }

  /** One underscore between two runs of digits is skipped. */
  lemma {:induction false} GroupedNumeralParses(a: string, b: string)
    requires a != [] && AllDigits(a) && b != [] && AllDigits(b)
    requires |a| + |b| <= MaxStrDigits
    ensures ParseInt(a + "_" + b) == Some(DigitsValue(a + b) as int)
  {
    var s := a + "_" + b;
    assert s[0] == a[0] && s[|s| - 1] == b[|b| - 1];
    ParseIntOfTrimmed(s);
    assert ParseSigned(s) == match ParseDigitGroups(s) case None => None case Some(n) => Some(n as int);
    GroupedJoin(a, b);
    assert |a + b| <= MaxStrDigits;
    assert ParseDigitGroups(s) == Some(DigitsValue(a + b));
  }

  lemma {:induction false} GroupedJoin(a: string, b: string)
    requires a != [] && AllDigits(a) && b != [] && AllDigits(b)
    ensures GroupDigits(a + "_" + b) == Some(a + b)
  {
    var s := a + "_" + b;
    forall k | 0 <= k < |s| ensures IsDigit(s[k]) || (s[k] == '_' && k + 1 < |s| && IsDigit(s[k + 1])) {
      if k < |a| { assert s[k] == a[k]; }
      else if k == |a| { assert s[k + 1] == b[0]; }
      else { assert s[k] == b[k - |a| - 1]; }
    }
    assert Grouped(s);
    UnscoredConcat(a + "_", b);
    UnscoredConcat(a, "_");
    assert Unscored("_") == [];
    assert GroupDigits(a) == Some(a) && Unscored(a) == a;
    assert GroupDigits(b) == Some(b) && Unscored(b) == b;
    assert Unscored(a + "_") == a;
    assert Unscored(s) == a + b;
  }

  /** A character that is neither a digit nor an underscore before a digit breaks the grouping. */
  lemma NotGroupedAt(t: string, k: nat)
    requires k < |t| && !IsDigit(t[k]) && !(t[k] == '_' && k + 1 < |t| && IsDigit(t[k + 1]))
    ensures !Grouped(t)
  {
  }

  /** An underscore at the front, at the back or next to another one makes
      `int()` fail. */
  lemma {:induction false} MisplacedUnderscoreRefused(a: string, b: string)
    requires a != [] && AllDigits(a) && b != [] && AllDigits(b)
    ensures ParseInt("_" + a).None?
    ensures ParseInt(a + "_").None?
    ensures ParseInt(a + "__" + b).None?
  {
    var front, back, double := "_" + a, a + "_", a + "__" + b;
    assert front[|front| - 1] == a[|a| - 1];
    ParseIntOfTrimmed(front);
    assert back[0] == a[0] && back[|a|] == '_' && |a| + 1 == |back|;
    ParseIntOfTrimmed(back);
    NotGroupedAt(back, |a|);
    assert double[0] == a[0] && double[|double| - 1] == b[|b| - 1];
    ParseIntOfTrimmed(double);
    assert double[|a|] == '_' && double[|a| + 1] == '_';
    NotGroupedAt(double, |a|);
  }

  /** Python's `s[:n]` for `n >= 0`: the first `n` characters, or all of `s`. */
  function Cut(s: string, n: nat): (r: string)
    ensures r <= s
    ensures |r| == if |s| <= n then |s| else n
  {
    if |s| <= n then s else s[..n]
  }
}
