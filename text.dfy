/** The Python string operations the cleaning step relies on: `str.strip()`,
    `int()` on text (through `astype(int)`), `str.split(sep)[1]`, and the
    ordering Python gives `str` values (pandas sorts group keys with it). */
module Text {
  import opened Wrappers

  // ---------------------------------------------------------------------------
  // Whitespace and str.strip()
  // ---------------------------------------------------------------------------

  /** Python's `str.isspace()` for one character: the set `str.strip()` and
      `int()` both remove. */
  predicate IsSpace(c: char) {
    var n := c as int;
    n == 0x20 || (0x09 <= n <= 0x0d) || (0x1c <= n <= 0x1f) || n == 0x85 || n == 0xa0
    || n == 0x1680 || (0x2000 <= n <= 0x200a) || n == 0x2028 || n == 0x2029
    || n == 0x202f || n == 0x205f || n == 0x3000
  }

  predicate AllSpace(s: string) {
    forall i :: 0 <= i < |s| ==> IsSpace(s[i])
  }

  /** Neither the first nor the last character is whitespace. */
  predicate Trimmed(s: string) {
    |s| == 0 || (!IsSpace(s[0]) && !IsSpace(s[|s| - 1]))
  }

  function StripLeft(s: string): (r: string)
    ensures |r| <= |s| && r == s[|s| - |r|..]
    ensures AllSpace(s[..|s| - |r|])
    ensures |r| > 0 ==> !IsSpace(r[0])
  {
    if |s| > 0 && IsSpace(s[0]) then StripLeft(s[1..]) else s
  }

  function StripRight(s: string): (r: string)
    ensures |r| <= |s| && r == s[..|r|]
    ensures AllSpace(s[|r|..])
    ensures |r| > 0 ==> !IsSpace(r[|r| - 1])
  {
    if |s| > 0 && IsSpace(s[|s| - 1]) then StripRight(s[..|s| - 1]) else s
  }

  /** `s.strip()`: `s` without its leading and trailing whitespace. The result
      is the slice of `s` that starts at `i`, and only whitespace was cut. */
  function Strip(s: string): (r: string)
    ensures Trimmed(r) && |r| <= |s|
  {
    StripRight(StripLeft(s))
  }

  /** What `strip()` cuts is whitespace: `s` is the stripped text with only
      whitespace before and after it. */
  lemma {:induction false} StripCutsOnlySpace(s: string)
    ensures exists i :: 0 <= i <= |s| - |Strip(s)| && Strip(s) == s[i..i + |Strip(s)|]
                        && AllSpace(s[..i]) && AllSpace(s[i + |Strip(s)|..])
  {
    CutsAround(s, StripLeft(s), Strip(s));
  }

  /** Cutting whitespace from the front of `s` and then from the back leaves
      a slice of `s` with only whitespace around it. */
  lemma {:induction false} CutsAround(s: string, l: string, r: string)
    requires |l| <= |s| && l == s[|s| - |l|..] && AllSpace(s[..|s| - |l|])
    requires |r| <= |l| && r == l[..|r|] && AllSpace(l[|r|..])
    ensures exists i :: 0 <= i <= |s| - |r| && r == s[i..i + |r|]
                        && AllSpace(s[..i]) && AllSpace(s[i + |r|..])
  {
    var i := |s| - |l|;
    assert r == s[i..i + |r|];
    assert s[i + |r|..] == l[|r|..];
  }

  /** Text that is already trimmed is left alone. */
  lemma {:induction false} StripTrimmed(s: string)
    requires Trimmed(s)
    ensures Strip(s) == s
  {
    assert StripLeft(s) == s;
    assert StripRight(s) == s;
  }

  /** Stripping twice is stripping once. */
  lemma {:induction false} StripIdempotent(s: string)
    ensures Strip(Strip(s)) == Strip(s)
  {
    StripTrimmed(Strip(s));
  }

  /** Whitespace added around text makes no difference to `strip()` when the
      text itself is trimmed. */
  lemma {:induction false} StripPadded(a: string, s: string, b: string)
    requires AllSpace(a) && AllSpace(b) && Trimmed(s) && |s| > 0
    ensures Strip(a + s + b) == s
  {
    var t := s + b;
    assert a + s + b == a + t;
    assert t[0] == s[0];
    StripLeftPadded(a, t);
    StripRightPadded(s, b);
  }

  lemma {:induction false} StripTrailing(s: string, b: string)
    requires AllSpace(b) && Trimmed(s) && |s| > 0
    ensures Strip(s + b) == s
  {
    assert (s + b)[0] == s[0];
    assert StripLeft(s + b) == s + b;
    StripRightPadded(s, b);
  }

  lemma {:induction false} StripLeftPadded(a: string, t: string)
    requires AllSpace(a) && |t| > 0 && !IsSpace(t[0])
    ensures StripLeft(a + t) == t
    decreases |a|
  {
    if |a| > 0 {
      assert (a + t)[1..] == a[1..] + t;
      StripLeftPadded(a[1..], t);
    } else {
      assert a + t == t;
    }
  }

  lemma {:induction false} StripRightPadded(t: string, b: string)
    requires AllSpace(b) && |t| > 0 && !IsSpace(t[|t| - 1])
    ensures StripRight(t + b) == t
    decreases |b|
  {
    if |b| > 0 {
      assert (t + b)[..|t + b| - 1] == t + b[..|b| - 1];
      StripRightPadded(t, b[..|b| - 1]);
    } else {
      assert t + b == t;
    }
  }

  // ---------------------------------------------------------------------------
  // int() on text, and the int64 column numpy stores the result in
  // ---------------------------------------------------------------------------

  predicate IsDigit(c: char) {
    '0' <= c <= '9'
  }

  function DigitValue(c: char): (n: nat)
    requires IsDigit(c)
    ensures n < 10
  {
    c as int - '0' as int
  }

  /** The digits of a base-10 literal as `int()` accepts them: ASCII digits,
      starting with a digit, where an underscore may stand only directly
      before a digit (so none leads, trails or doubles). */
  predicate IsDecimalBody(s: string) {
    |s| > 0 && IsDigit(s[0])
    && forall i :: 0 <= i < |s| ==> IsDigit(s[i]) || (s[i] == '_' && i + 1 < |s| && IsDigit(s[i + 1]))
  }

  /** The number the digits of `s` spell, underscores skipped. */
  function DigitsValue(s: string): nat
  {
    if |s| == 0 then 0
    else if IsDigit(s[|s| - 1]) then 10 * DigitsValue(s[..|s| - 1]) + DigitValue(s[|s| - 1])
    else DigitsValue(s[..|s| - 1])
  }

  /** Python's `int(s)` for text in base 10, `None` where it raises
      `ValueError`: surrounding whitespace is ignored, then an optional sign,
      then a decimal body. */
  function ParseInt(s: string): Option<int>
  {
    ParseStripped(Strip(s))
  }

  /** `int()` once the whitespace is gone: an optional sign, then a decimal
      body. */
  function ParseStripped(t: string): Option<int>
  {
    if |t| > 0 && (t[0] == '-' || t[0] == '+') then
      if IsDecimalBody(t[1..]) then
        var v: int := DigitsValue(t[1..]);
        Some(if t[0] == '-' then -v else v)
      else None
    else if IsDecimalBody(t) then Some(DigitsValue(t))
    else None
  }

  const Int64Min: int := -0x8000_0000_0000_0000
  const Int64Max: int := 0x7fff_ffff_ffff_ffff

  /** `astype(int)` on one text cell: `int()` of the text, which must also fit
      the signed 64-bit column numpy stores it in (`OverflowError` otherwise). */
  function ToInt64(s: string): (r: Option<int>)
    ensures r.Some? ==> Int64Min <= r.value <= Int64Max && ParseInt(s) == r
    ensures r.None? ==> ParseInt(s).None? || ParseInt(s).value < Int64Min || Int64Max < ParseInt(s).value
  {
    match ParseInt(s)
    case Some(n) => if Int64Min <= n <= Int64Max then Some(n) else None
    case None => None
  }

  // str() of an integer: the partner of ParseInt.

  function DigitChar(d: nat): (c: char)
    requires d < 10
    ensures IsDigit(c) && DigitValue(c) == d
  {
    ('0' as int + d) as char
  }

  /** `str(n)` for a non-negative `n`: its decimal digits, no leading zero. */
  function NatText(n: nat): (s: string)
    ensures |s| > 0 && forall i :: 0 <= i < |s| ==> IsDigit(s[i])
  {
    if n < 10 then [DigitChar(n)] else NatText(n / 10) + [DigitChar(n % 10)]
  }

  lemma {:induction false} NatTextValue(n: nat)
    ensures DigitsValue(NatText(n)) == n
  {
    var s := NatText(n);
    if n >= 10 {
      assert s[..|s| - 1] == NatText(n / 10);
      NatTextValue(n / 10);
    }
  }

  lemma {:induction false} AllDigitsDecimal(s: string)
    requires |s| > 0 && forall i :: 0 <= i < |s| ==> IsDigit(s[i])
    ensures IsDecimalBody(s)
  {
  }

  /** `int(str(n)) == n` for a non-negative `n`. */
  lemma {:induction false} NatTextParses(m: nat)
    ensures ParseInt(NatText(m)) == Some(m)
  {
    var digits := NatText(m);
    NatTextValue(m);
    AllDigitsDecimal(digits);
    assert Trimmed(digits);
    StripTrimmed(digits);
  }

  /** `int(str(-m)) == -m`: the minus sign is read. */
  lemma {:induction false} NegativeTextParses(m: nat)
    requires m > 0
    ensures ParseInt("-" + NatText(m)) == Some(-(m as int))
  {
    var digits := NatText(m);
    var s := "-" + digits;
    NatTextValue(m);
    AllDigitsDecimal(digits);
    assert s[|s| - 1] == digits[|digits| - 1];
    assert Trimmed(s);
    StripTrimmed(s);
    assert s[1..] == digits;
  }

  lemma {:induction false} NegativeTextTrimmed(m: nat)
    ensures Trimmed("-" + NatText(m))
  {
    var digits := NatText(m);
    var s := "-" + digits;
    assert s[|s| - 1] == digits[|digits| - 1];
  }

  /** `int()` sees only the stripped text. */
  lemma {:induction false} ParseIntPadded(a: string, s: string, b: string)
    requires AllSpace(a) && AllSpace(b) && Trimmed(s) && |s| > 0
    ensures ParseInt(a + s + b) == ParseInt(s)
  {
    StripPadded(a, s, b);
    StripTrimmed(s);
  }

  /** `int(str(n)) == n` for a non-negative `n`, with any whitespace around
      the text. */
  lemma {:induction false} ParseIntText(n: nat, a: string, b: string)
    requires AllSpace(a) && AllSpace(b)
    ensures ParseInt(a + NatText(n) + b) == Some(n)
  {
    NatTextParses(n);
    assert Trimmed(NatText(n));
    ParseIntPadded(a, NatText(n), b);
  }

  /** The same with whitespace after the text only. */
  lemma {:induction false} ParseIntTrailing(s: string, b: string)
    requires AllSpace(b) && Trimmed(s) && |s| > 0
    ensures ParseInt(s + b) == ParseInt(s)
  {
    StripTrailing(s, b);
    StripTrimmed(s);
  }

  /** The text `NaN` (the missing-value marker) is not an integer. */
  lemma {:induction false} NaNIsNotInt()
    ensures ParseInt("NaN ").None? && ParseInt("NaN").None?
  {
    assert Trimmed("NaN");
    ParseIntTrailing("NaN", " ");
    assert "NaN" + " " == "NaN ";
    StripTrimmed("NaN");
  }

  // ---------------------------------------------------------------------------
  // s.split(sep)[1]
  // ---------------------------------------------------------------------------

  predicate OccursAt(s: string, d: string, i: int) {
    0 <= i && i + |d| <= |s| && s[i..i + |d|] == d
  }

  /** The first index at which `d` occurs in `s`. */
  function Find(s: string, d: string): (r: Option<nat>)
    requires |d| > 0
    ensures r.Some? ==> OccursAt(s, d, r.value)
    ensures r.Some? ==> forall j :: 0 <= j < r.value ==> !OccursAt(s, d, j)
    ensures r.None? ==> forall j :: 0 <= j <= |s| ==> !OccursAt(s, d, j)
  {
    if |s| < |d| then None
    else if s[..|d|] == d then Some(0)
    else
      var rest := Find(s[1..], d);
      assert forall j :: 1 <= j <= |s| ==> (OccursAt(s, d, j) <==> OccursAt(s[1..], d, j - 1)) by {
        forall j | 1 <= j <= |s| ensures OccursAt(s, d, j) <==> OccursAt(s[1..], d, j - 1) {
          if j + |d| <= |s| { assert s[1..][j - 1..j - 1 + |d|] == s[j..j + |d|]; }
        }
      }
      match rest
      case None => None
      case Some(j) => Some(j + 1)
  }

  /** An occurrence in a suffix is an occurrence in the whole text. */
  lemma {:induction false} ShiftOccurs(s: string, d: string, i: nat, j: nat)
    requires i <= |s| && OccursAt(s[i..], d, j)
    ensures OccursAt(s, d, i + j)
  {
    assert s[i..][j..j + |d|] == s[i + j..i + j + |d|];
  }

  /** The text before the first occurrence of `d` does not contain `d`. */
  lemma {:induction false} BeforeFirstIsFree(s: string, d: string)
    requires |d| > 0 && Find(s, d).Some?
    ensures Find(s[..Find(s, d).value], d).None?
  {
    var j := Find(s, d).value;
    var p := s[..j];
    if Find(p, d).Some? {
      var k := Find(p, d).value;
      assert s[k..k + |d|] == p[k..k + |d|];
      assert OccursAt(s, d, k);
    }
  }

  /** `s.split(d)[1]`: the text between the first occurrence of `d` and the
      next one (or the end of `s`); `None` where Python raises `IndexError`
      because `d` does not occur in `s` at all. */
  function SecondPiece(s: string, d: string): (r: Option<string>)
    requires |d| > 0
    ensures r.None? <==> Find(s, d).None?
  {
    match Find(s, d)
    case None => None
    case Some(i) => Some(UpToFirst(s[i + |d|..], d))
  }

  /** Where `d` occurs, the second piece is the text that follows the first
      `d` in `s`; it holds no `d` and ends at the end of `s` or where the next
      `d` begins. */
  lemma {:induction false} SecondPieceBetween(s: string, d: string)
    requires |d| > 0 && Find(s, d).Some?
    ensures var start := Find(s, d).value + |d|;
      var r := SecondPiece(s, d).value;
      && start + |r| <= |s| && s[start..start + |r|] == r
      && Find(r, d).None?
      && (start + |r| == |s| || OccursAt(s, d, start + |r|))
  {
    var start := Find(s, d).value + |d|;
    var r := SecondPiece(s, d).value;
    assert r == UpToFirst(s[start..], d);
    PieceFrom(s, d, start);
    assert start + |r| <= |s| && s[start..start + |r|] == r;
    assert Find(r, d).None?;
  }

  /** The text from `start` up to the next occurrence of `d` appears in `s`
      at `start`, does not contain `d`, and ends at the end of `s` or where
      `d` occurs next. */
  lemma {:induction false} PieceFrom(s: string, d: string, start: nat)
    requires |d| > 0 && start <= |s|
    ensures var piece := UpToFirst(s[start..], d);
      && start + |piece| <= |s| && s[start..start + |piece|] == piece
      && Find(piece, d).None?
      && (start + |piece| == |s| || OccursAt(s, d, start + |piece|))
  {
    var piece := UpToFirst(s[start..], d);
    UpToFirstFacts(s[start..], d);
    assert s[start..start + |piece|] == s[start..][..|piece|];
    if start + |piece| < |s| {
      ShiftOccurs(s, d, start, |piece|);
    }
  }

  /** The text of `t` up to the first occurrence of `d`, or all of `t`. */
  function UpToFirst(t: string, d: string): string
    requires |d| > 0
  {
    match Find(t, d)
    case None => t
    case Some(j) => t[..j]
  }

  lemma {:induction false} UpToFirstFacts(t: string, d: string)
    requires |d| > 0
    ensures |UpToFirst(t, d)| <= |t| && t[..|UpToFirst(t, d)|] == UpToFirst(t, d)
    ensures Find(UpToFirst(t, d), d).None?
    ensures |UpToFirst(t, d)| == |t| || OccursAt(t, d, |UpToFirst(t, d)|)
  {
    if Find(t, d).Some? {
      BeforeFirstIsFree(t, d);
    }
  }

  // ---------------------------------------------------------------------------
  // The order of Python str values
  // ---------------------------------------------------------------------------

  /** `a < b` on Python `str`: lexicographic by code point, a proper prefix
      first. */
  predicate Less(a: string, b: string) {
    if |a| == 0 then |b| > 0
    else if |b| == 0 then false
    else a[0] < b[0] || (a[0] == b[0] && Less(a[1..], b[1..]))
  }

  lemma {:induction false} LessIrreflexive(a: string)
    ensures !Less(a, a)
  {
    if |a| > 0 { LessIrreflexive(a[1..]); }
  }

  lemma {:induction false} LessTransitive(a: string, b: string, c: string)
    requires Less(a, b) && Less(b, c)
    ensures Less(a, c)
  {
    if |a| > 0 && |b| > 0 && |c| > 0 && a[0] == b[0] == c[0] {
      LessTransitive(a[1..], b[1..], c[1..]);
    }
  }

  lemma {:induction false} LessTotal(a: string, b: string)
    requires a != b
    ensures Less(a, b) || Less(b, a)
  {
    if |a| > 0 && |b| > 0 && a[0] == b[0] {
      assert a == [a[0]] + a[1..] && b == [b[0]] + b[1..];
      LessTotal(a[1..], b[1..]);
    }
  }
}
