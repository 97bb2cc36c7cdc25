/**
 * The sNBT literal recognizers (fastsnbt/src/parser.rs). Every recognizer
 * is a pure function from the input text to nom's three-way result: success
 * with the unconsumed remainder, a recoverable error (`alt` and `opt` go on
 * to their next choice), or a failure raised by `cut` (nothing recovers).
 */
module Parser {
  import opened Numerals

  /** nom's `IResult`: `Ok((rest, value))`, `Err::Error`, `Err::Failure`. */
  datatype IResult<+T> = Ok(rest: string, value: T) | Error | Failure

  /** A string result: a slice of the input, or a freshly built buffer. */
  datatype Cow = Borrowed(slice: string) | Owned(buf: string) {
    function Text(): string {
      match this
      case Borrowed(s) => s
      case Owned(s) => s
    }
  }

  predicate IsSuffix(rest: string, s: string) {
    |rest| <= |s| && s[|s| - |rest|..] == rest
  }

  // ---------------------------------------------------------------------
  // nom building blocks
  // ---------------------------------------------------------------------

  /** `alt((a, b))`: `b` is tried only when `a` gave a recoverable error. */
  function Alt<T>(first: IResult<T>, second: IResult<T>): (r: IResult<T>)
    ensures first.Ok? ==> r == first
    ensures first.Failure? ==> r.Failure?
    ensures first.Error? ==> r == second
  {
    if first.Error? then second else first
  }

  /** `tag(t)`: exact, case-sensitive prefix match. */
  function Tag(s: string, t: string): IResult<string> {
    if |t| <= |s| && s[..|t|] == t then Ok(s[|t|..], t) else Error
  }

  function LowerAscii(c: char): char {
    if 'A' <= c <= 'Z' then (c as int + 32) as char else c
  }

  predicate SameIgnoringCase(a: string, b: string)
    requires |a| == |b|
  {
    forall i :: 0 <= i < |a| ==> LowerAscii(a[i]) == LowerAscii(b[i])
  }

  /** `tag_no_case(t)`: ASCII case-insensitive prefix match; yields the input's own slice. */
  function TagNoCase(s: string, t: string): (r: IResult<string>)
    ensures !r.Failure?
    ensures r.Ok? <==> |t| <= |s| && SameIgnoringCase(s[..|t|], t)
    ensures r.Ok? ==> s == r.value + r.rest && |r.value| == |t|
  {
    if |t| <= |s| && SameIgnoringCase(s[..|t|], t) then Ok(s[|t|..], s[..|t|]) else Error
  }

  /** Length of an optional leading `+` or `-`. */
  function SignLen(s: string): nat {
    if |s| > 0 && (s[0] == '+' || s[0] == '-') then 1 else 0
  }

  /** Length of the longest run of ASCII digits at the start of `s` (`digit0`). */
  function DigitRun(s: string): (n: nat)
    ensures n <= |s| && AllDigits(s[..n])
    ensures n < |s| ==> !IsDigit(s[n])
    decreases |s|
  {
    if |s| > 0 && IsDigit(s[0]) then
      var n := 1 + DigitRun(s[1..]);
      assert s[..n] == [s[0]] + s[1..][..n - 1];
      n
    else 0
  }

  /** The digit run of `s` is exactly `k` long when `s[..k]` are digits and `s[k]` is not. */
  lemma {:induction false} DigitRunPrefix(s: string, k: nat)
    requires k <= |s| && AllDigits(s[..k]) && (k < |s| ==> !IsDigit(s[k]))
    ensures DigitRun(s) == k
    decreases k
  {
    if k > 0 {
      assert s[1..][..k - 1] == s[..k][1..];
      DigitRunPrefix(s[1..], k - 1);
    }
  }

  /** A digit prefix of length `p` means the digit run is at least `p` long. */
  lemma {:induction false} DigitRunAtLeast(s: string, p: nat)
    requires p <= |s| && AllDigits(s[..p])
    ensures p <= DigitRun(s)
    decreases p
  {
    if p > 0 {
      assert s[..p][0] == s[0];
      assert s[1..][..p - 1] == s[..p][1..];
      DigitRunAtLeast(s[1..], p - 1);
    }
  }

  /** A prefix and the suffix after it make up the whole. */
  lemma TakeThenDrop(s: string, k: nat)
    requires k <= |s|
    ensures s == s[..k] + s[k..]
  {
  }

  /** A suffix of a prefix is a middle slice. */
  lemma DropOfTake(s: string, k: nat, j: nat)
    requires j <= k <= |s|
    ensures s[..k][j..] == s[j..k]
  {
  }

  /** A prefix of a suffix is a middle slice. */
  lemma TakeOfDrop(s: string, a: nat, c: nat)
    requires a + c <= |s|
    ensures s[a..][..c] == s[a..a + c]
  {
  }

  /** A prefix of a prefix. */
  lemma TakeOfTake(s: string, k: nat, j: nat)
    requires j <= k <= |s|
    ensures s[..k][..j] == s[..j]
  {
  }

  /** A middle slice of a suffix. */
  lemma SliceOfSuffix(s: string, a: nat, b: nat, c: nat)
    requires a <= |s| && b <= c <= |s| - a
    ensures s[a..][b..c] == s[a + b..a + c]
  {
  }

  /** Cutting a middle slice again, at either end. */
  lemma SliceOfSlice(s: string, a: nat, b: nat, c: nat)
    requires a <= b <= |s| && c <= b - a
    ensures s[a..b][..c] == s[a..a + c] && s[a..b][c..] == s[a + c..b]
  {
  }

  /** The digit run of a prefix is the digit run, cut at the prefix's end. */
  lemma DigitRunOfPrefix(s: string, k: nat)
    requires k <= |s|
    ensures DigitRun(s[..k]) == if DigitRun(s) < k then DigitRun(s) else k
  {
    var n := DigitRun(s);
    var p := if n < k then n else k;
    assert s[..k][..p] == s[..n][..p];
    DigitRunPrefix(s[..k], p);
  }

  // ---------------------------------------------------------------------
  // decimal, parse_i8 / parse_i16 / parse_i32 / parse_i64
  // ---------------------------------------------------------------------

  /** The decimal grammar: an optional sign, then `0` alone or `[1-9][0-9]*`. */
  predicate IsDecimalLexeme(t: string) {
    var body := t[SignLen(t)..];
    body == "0" || (|body| > 0 && '1' <= body[0] <= '9' && AllDigits(body))
  }

  /**
   * `decimal`: the longest prefix of `s` that is a decimal lexeme. On `007`
   * it takes `0` and leaves `07`.
   */
  function Decimal(s: string): (r: IResult<string>)
    ensures !r.Failure?
    ensures r.Ok? <==> SignLen(s) < |s| && IsDigit(s[SignLen(s)])
    ensures r.Ok? ==> s == r.value + r.rest && IsDecimalLexeme(r.value)
    ensures r.Ok? ==> forall k :: |r.value| < k <= |s| ==> !IsDecimalLexeme(s[..k])
  {
    var i := SignLen(s);
    if i < |s| && '1' <= s[i] <= '9' then
      var n := i + 1 + DigitRun(s[i + 1..]);
      DecimalNonZero(s, i, n);
      Ok(s[n..], s[..n])
    else if i < |s| && s[i] == '0' then
      DecimalZero(s, i);
      Ok(s[i + 1..], s[..i + 1])
    else
      Error
  }

  /** A first digit other than `0` starts the longest decimal lexeme, which runs to the last digit. */
  lemma DecimalNonZero(s: string, i: nat, n: nat)
    requires i == SignLen(s) && i < |s| && '1' <= s[i] <= '9' && n == i + 1 + DigitRun(s[i + 1..])
    ensures IsDecimalLexeme(s[..n])
    ensures forall k :: n < k <= |s| ==> !IsDecimalLexeme(s[..k])
  {
    assert s[..n][SignLen(s[..n])..] == [s[i]] + s[i + 1..][..n - i - 1];
    forall k | n < k <= |s| ensures !IsDecimalLexeme(s[..k]) {
      assert s[..k][SignLen(s[..k])..][n - i] == s[n];
    }
  }

  /** A first digit `0` is the whole decimal lexeme. */
  lemma DecimalZero(s: string, i: nat)
    requires i == SignLen(s) && i < |s| && s[i] == '0'
    ensures IsDecimalLexeme(s[..i + 1])
    ensures forall k :: i + 1 < k <= |s| ==> !IsDecimalLexeme(s[..k])
  {
    assert s[..i + 1][SignLen(s[..i + 1])..] == "0";
    forall k | i + 1 < k <= |s| ensures !IsDecimalLexeme(s[..k]) {
      var body := s[..k][SignLen(s[..k])..];
      assert body[0] == '0' && |body| > 1;
    }
  }

  /**
   * The text a sized integer parser consumed: a decimal lexeme whose value
   * Rust's `str::parse` accepts in [lo, hi] as `v`, followed by one of the
   * `letters` (no letter at all when `letters` is empty).
   */
  predicate IsIntToken(t: string, letters: string, lo: int, hi: int, v: int) {
    var n := if letters == "" then |t| else |t| - 1;
    0 <= n <= |t|
    && (letters != "" ==> t[n] in letters)
    && IsDecimalLexeme(t[..n])
    && ParseSigned(t[..n], lo, hi) == Some(v)
  }

  /** A lexeme `num` and one suffix letter were consumed from `s`. */
  lemma SuffixedToken(s: string, num: string, rest: string, letters: string, lo: int, hi: int, v: int)
    requires s == num + rest && |rest| > 0 && rest[0] in letters
    requires IsDecimalLexeme(num) && ParseSigned(num, lo, hi) == Some(v)
    ensures IsSuffix(rest[1..], s) && IsIntToken(s[..|s| - |rest[1..]|], letters, lo, hi, v)
  {
    var t := s[..|s| - |rest[1..]|];
    assert t == num + [rest[0]];
    assert t[..|t| - 1] == num;
    assert s[|s| - |rest[1..]|..] == rest[1..];
  }

  /** A lexeme `num` and nothing else was consumed from `s`. */
  lemma BareToken(s: string, num: string, rest: string, lo: int, hi: int, v: int)
    requires s == num + rest
    requires IsDecimalLexeme(num) && ParseSigned(num, lo, hi) == Some(v)
    ensures IsSuffix(rest, s) && IsIntToken(s[..|s| - |rest|], "", lo, hi, v)
  {
    var t := s[..|s| - |rest|];
    assert t == num && t[..|t|] == num;
    assert s[|s| - |rest|..] == rest;
  }

  /** `decimal`, then one of `letters`, then `map_res` with `str::parse`. */
  function SuffixedInt(s: string, letters: string, lo: int, hi: int): (r: IResult<int>)
    requires letters != ""
    ensures !r.Failure?
    ensures r.Ok? ==> IsSuffix(r.rest, s) && IsIntToken(s[..|s| - |r.rest|], letters, lo, hi, r.value)
  {
    match Decimal(s)
    case Ok(rest, num) =>
      if |rest| > 0 && rest[0] in letters then
        (match ParseSigned(num, lo, hi)
         case Some(v) =>
           SuffixedToken(s, num, rest, letters, lo, hi, v);
           Ok(rest[1..], v)
         case None => Error)
      else Error
    case _ => Error
  }

  function ParseI8(s: string): (r: IResult<i8>)
    ensures !r.Failure?
    ensures r.Ok? ==> IsSuffix(r.rest, s) && IsIntToken(s[..|s| - |r.rest|], "bB", -0x80, 0x7f, r.value as int)
  {
    match SuffixedInt(s, "bB", -0x80, 0x7f)
    case Ok(rest, v) => Ok(rest, v as i8)
    case _ => Error
  }

  function ParseI16(s: string): (r: IResult<i16>)
    ensures !r.Failure?
    ensures r.Ok? ==> IsSuffix(r.rest, s) && IsIntToken(s[..|s| - |r.rest|], "sS", -0x8000, 0x7fff, r.value as int)
  {
    match SuffixedInt(s, "sS", -0x8000, 0x7fff)
    case Ok(rest, v) => Ok(rest, v as i16)
    case _ => Error
  }

  /** `parse_i32`: no suffix letter is ever consumed. */
  function ParseI32(s: string): (r: IResult<i32>)
    ensures !r.Failure?
    ensures r.Ok? ==> IsSuffix(r.rest, s) && IsIntToken(s[..|s| - |r.rest|], "", -0x8000_0000, 0x7fff_ffff, r.value as int)
  {
    match Decimal(s)
    case Ok(rest, num) =>
      (match ParseSigned(num, -0x8000_0000, 0x7fff_ffff)
       case Some(v) =>
         BareToken(s, num, rest, -0x8000_0000, 0x7fff_ffff, v);
         Ok(rest, v as i32)
       case None => Error)
    case _ => Error
  }

  function ParseI64(s: string): (r: IResult<i64>)
    ensures !r.Failure?
    ensures r.Ok? ==> IsSuffix(r.rest, s) && IsIntToken(s[..|s| - |r.rest|], "lL", -0x8000_0000_0000_0000, 0x7fff_ffff_ffff_ffff, r.value as int)
  {
    match SuffixedInt(s, "lL", -0x8000_0000_0000_0000, 0x7fff_ffff_ffff_ffff)
    case Ok(rest, v) => Ok(rest, v as i64)
    case _ => Error
  }

  // ---------------------------------------------------------------------
  // float grammar: exp, float_num, float, parse_f32 / parse_f64
  // ---------------------------------------------------------------------

  /** An exponent: `e` or `E`, an optional sign, one or more digits. */
  predicate IsExponent(t: string) {
    |t| >= 2 && (t[0] == 'e' || t[0] == 'E') && |t[1..]| > SignLen(t[1..]) && AllDigits(t[1..][SignLen(t[1..])..])
  }

  /**
   * `exp`: once the `e` is consumed, the digits are under `cut`, so a
   * missing digit run is a Failure rather than an Error.
   */
  function Exp(s: string): (r: IResult<string>)
    ensures r.Error? <==> !(|s| > 0 && (s[0] == 'e' || s[0] == 'E'))
    ensures r.Failure? <==> |s| > 0 && (s[0] == 'e' || s[0] == 'E') && DigitRun(s[1..][SignLen(s[1..])..]) == 0
    ensures r.Ok? ==> s == r.value + r.rest && IsExponent(r.value) && (r.rest == [] || !IsDigit(r.rest[0]))
  {
    if |s| == 0 || (s[0] != 'e' && s[0] != 'E') then Error
    else
      var i := 1 + SignLen(s[1..]);
      var n := DigitRun(s[i..]);
      ExpParts(s, i, n);
      if n == 0 then Failure else Ok(s[i + n..], s[..i + n])
  }

  /** The pieces `exp` splits its input into, after the `e`. */
  lemma ExpParts(s: string, i: nat, n: nat)
    requires |s| > 0 && (s[0] == 'e' || s[0] == 'E')
    requires i == 1 + SignLen(s[1..]) && n == DigitRun(s[i..])
    ensures s[1..][SignLen(s[1..])..] == s[i..]
    ensures n > 0 ==> s == s[..i + n] + s[i + n..] && IsExponent(s[..i + n])
    ensures n > 0 ==> s[i + n..] == [] || !IsDigit(s[i + n..][0])
  {
    var g := SignLen(s[1..]);
    assert s[1..][g..] == s[i..];
    if n > 0 {
      var t := s[..i + n];
      DropOfTake(s, i + n, 1);
      assert t[1..][0] == s[1..][0];
      assert SignLen(t[1..]) == g;
      SliceOfSlice(s, 1, i + n, g);
      TakeOfDrop(s, i, n);
      assert s[i + n..] == s[i..][n..];
      TakeThenDrop(s, i + n);
    }
  }

  // The float grammar as a reference, independent of the order in which
  // the recognizers below try their alternatives.

  /** `sign? digits`: the mantissa of the exponent form. */
  predicate IsIntMantissa(t: string) {
    var b := t[SignLen(t)..];
    |b| > 0 && AllDigits(b)
  }

  /** The body `b` has its point at `d`: digits, `.`, digits, and at least one digit in all. */
  predicate PointAt(b: string, d: nat)
    requires d < |b|
  {
    AllDigits(b[..d]) && b[d] == '.' && AllDigits(b[d + 1..]) && (d > 0 || d + 1 < |b|)
  }

  /** `sign? (digits '.' digits? | '.' digits)`: the mantissa of the fractional form. */
  predicate IsFracMantissa(t: string) {
    var b := t[SignLen(t)..];
    exists d | 0 <= d < |b| :: PointAt(b, d)
  }

  predicate IsMantissa(t: string) {
    IsIntMantissa(t) || IsFracMantissa(t)
  }

  /** `sign? digits exponent`. */
  predicate IsExpForm(t: string) {
    exists j | 0 < j < |t| :: IsIntMantissa(t[..j]) && IsExponent(t[j..])
  }

  /** `sign? (digits '.' digits? | '.' digits) exponent?`. */
  predicate IsFracForm(t: string) {
    || IsFracMantissa(t)
    || exists j | 0 < j < |t| :: IsFracMantissa(t[..j]) && IsExponent(t[j..])
  }

  predicate IsNumericLexeme(t: string) {
    IsExpForm(t) || IsFracForm(t)
  }

  predicate MatchesIgnoringCase(t: string, token: string) {
    |t| == |token| && SameIgnoringCase(t, token)
  }

  /** The special tokens, in any ASCII case. */
  predicate IsSpecialToken(t: string) {
    || MatchesIgnoringCase(t, "inf") || MatchesIgnoringCase(t, "infinity")
    || MatchesIgnoringCase(t, "nan")
    || MatchesIgnoringCase(t, "-inf") || MatchesIgnoringCase(t, "-infinity")
  }

  /** Every text `float` may return as its lexeme. */
  predicate IsFloatLexeme(t: string) {
    IsSpecialToken(t) || IsNumericLexeme(t)
  }

  predicate StartsIgnoringCase(s: string, token: string) {
    |token| <= |s| && SameIgnoringCase(s[..|token|], token)
  }

  /** `s` starts with one of the special tokens (`infinity` starts with `inf`). */
  predicate HasSpecialPrefix(s: string) {
    StartsIgnoringCase(s, "inf") || StartsIgnoringCase(s, "nan") || StartsIgnoringCase(s, "-inf")
  }

  /** An `e` or `E` and an optional sign, with no digit after them. */
  predicate DanglingExponent(x: string) {
    && |x| > 0 && (x[0] == 'e' || x[0] == 'E')
    && var y := x[1..][SignLen(x[1..])..];
       y == [] || !IsDigit(y[0])
  }

  /** `s` starts with a mantissa followed by a dangling exponent. */
  predicate HasDanglingExponent(s: string) {
    exists j | 0 < j < |s| :: IsMantissa(s[..j]) && DanglingExponent(s[j..])
  }

  predicate HasNumericPrefix(s: string) {
    exists k | 0 <= k <= |s| :: IsNumericLexeme(s[..k])
  }

  /** A point can only sit where the digit run of the body ends. */
  lemma PointAtRun(b: string, d: nat)
    requires d < |b| && PointAt(b, d)
    ensures d == DigitRun(b)
  {
    DigitRunPrefix(b, d);
  }

  /** The point of a fractional mantissa is where its body's digit run ends. */
  lemma FracBody(t: string)
    requires IsFracMantissa(t)
    ensures var b := t[SignLen(t)..]; var d := DigitRun(b);
      0 < |t| && d < |b| && b[d] == '.' && AllDigits(b[d + 1..]) && (d > 0 || d + 1 < |b|)
  {
    var b := t[SignLen(t)..];
    var d :| 0 <= d < |b| && PointAt(b, d);
    PointAtRun(b, d);
  }

  /** A mantissa holds no `e` or `E`: an exponent can only start after it. */
  lemma MantissaHasNoE(t: string, p: nat)
    requires IsMantissa(t) && p < |t|
    ensures t[p] != 'e' && t[p] != 'E'
  {
    var g := SignLen(t);
    if p >= g {
      var b := t[g..];
      assert t[p] == b[p - g];
      if !IsIntMantissa(t) {
        var d :| 0 <= d < |b| && PointAt(b, d);
        if p - g < d {
          assert b[..d][p - g] == b[p - g];
        } else if p - g > d {
          assert b[d + 1..][p - g - d - 1] == b[p - g];
        }
      }
    }
  }

  /** A non-empty prefix has the sign of the whole. */
  lemma PrefixSign(s: string, k: nat)
    requires 0 < k <= |s|
    ensures SignLen(s[..k]) == SignLen(s) && s[..k][SignLen(s)..] == s[SignLen(s)..][..k - SignLen(s)]
  {
  }

  /** A point found in a prefix of `x` is at the end of the digit run of `x` itself. */
  lemma PointInPrefix(x: string, p: nat)
    requires p <= |x|
    requires var b := x[..p]; var d := DigitRun(b);
      d < |b| && b[d] == '.' && AllDigits(b[d + 1..]) && (d > 0 || d + 1 < |b|)
    ensures var n := DigitRun(x);
      n + 1 <= p && x[n] == '.' && AllDigits(x[n + 1..p]) && (n > 0 || n + 1 < p)
  {
    DigitRunOfPrefix(x, p);
    var n := DigitRun(x);
    assert x[..p][n + 1..] == x[n + 1..p];
  }

  /** Where the point of a fractional mantissa starting `s` sits. */
  lemma FracMantissaPoint(s: string, i: nat, n: nat, k: nat)
    requires i == SignLen(s) && n == DigitRun(s[i..]) && i < k <= |s|
    requires var b := s[i..][..k - i]; var d := DigitRun(b);
      d < |b| && b[d] == '.' && AllDigits(b[d + 1..]) && (d > 0 || d + 1 < |b|)
    ensures i + n < k && s[i + n] == '.' && (n > 0 || i + n + 1 < k) && AllDigits(s[i + n + 1..k])
  {
    var x := s[i..];
    PointInPrefix(x, k - i);
    assert x[n] == s[i + n];
    SliceOfSuffix(s, i, n + 1, k - i);
  }

  /** `FracBody` for a prefix of `s`, read on the body of `s` itself. */
  lemma FracPrefixBody(s: string, k: nat)
    requires k <= |s| && IsFracMantissa(s[..k])
    ensures SignLen(s) < k
    ensures var b := s[SignLen(s)..][..k - SignLen(s)]; var d := DigitRun(b);
      d < |b| && b[d] == '.' && AllDigits(b[d + 1..]) && (d > 0 || d + 1 < |b|)
  {
    FracBody(s[..k]);
    PrefixSign(s, k);
  }

  /** Every fractional mantissa that starts `s` ends within what `float_num` takes. */
  lemma FracMantissaBound(s: string, i: nat, n: nat, k: nat)
    requires i == SignLen(s) && n == DigitRun(s[i..])
    requires k <= |s| && IsFracMantissa(s[..k])
    ensures i + n < |s| && s[i + n] == '.'
    ensures n > 0 || DigitRun(s[i + n + 1..]) > 0
    ensures k <= i + n + 1 + DigitRun(s[i + n + 1..])
  {
    FracPrefixBody(s, k);
    FracMantissaPoint(s, i, n, k);
    DigitsWithin(s, i + n + 1, k);
  }

  /** Digits occupying `s[p..q]` lie within the digit run that starts at `p`. */
  lemma DigitsWithin(s: string, p: nat, q: nat)
    requires p <= q <= |s| && AllDigits(s[p..q])
    ensures q - p <= DigitRun(s[p..])
  {
    TakeOfDrop(s, p, q - p);
    DigitRunAtLeast(s[p..], q - p);
  }

  /** Without a point after the digits, and a digit on one side of it, no fractional mantissa starts `s`. */
  lemma FracMantissaNone(s: string, i: nat, n: nat)
    requires i == SignLen(s) && n == DigitRun(s[i..])
    requires !(i + n < |s| && s[i + n] == '.' && (n > 0 || DigitRun(s[i + n + 1..]) > 0))
    ensures forall k | 0 <= k <= |s| :: !IsFracMantissa(s[..k])
  {
    forall k | 0 <= k <= |s| ensures !IsFracMantissa(s[..k]) {
      if IsFracMantissa(s[..k]) {
        FracMantissaBound(s, i, n, k);
      }
    }
  }

  /**
   * With a point after the digits and a digit on one side of it, the
   * longest fractional mantissa starting `s` ends after the digits that
   * follow the point.
   */
  lemma FracMantissaAt(s: string, i: nat, n: nat, m: nat)
    requires i == SignLen(s) && n == DigitRun(s[i..]) && i + n < |s| && s[i + n] == '.'
    requires m == DigitRun(s[i + n + 1..]) && (n > 0 || m > 0)
    ensures i + n + 1 + m <= |s|
    ensures s == s[..i + n + 1 + m] + s[i + n + 1 + m..] && IsFracMantissa(s[..i + n + 1 + m])
    ensures forall k | i + n + 1 + m < k <= |s| :: !IsFracMantissa(s[..k])
  {
    FracMantissaFound(s, i, n, m);
    FracMantissaLongest(s, i, n, m);
    TakeThenDrop(s, i + n + 1 + m);
  }

  /** No fractional mantissa that starts `s` ends after the digits that follow its point. */
  lemma FracMantissaLongest(s: string, i: nat, n: nat, m: nat)
    requires i == SignLen(s) && n == DigitRun(s[i..]) && i + n < |s|
    requires m == DigitRun(s[i + n + 1..])
    ensures forall k | i + n + 1 + m < k <= |s| :: !IsFracMantissa(s[..k])
  {
    forall k | i + n + 1 + m < k <= |s| ensures !IsFracMantissa(s[..k]) {
      if IsFracMantissa(s[..k]) {
        FracMantissaBound(s, i, n, k);
      }
    }
  }



  /** What `float_num` takes is a fractional mantissa. */
  lemma FracMantissaFound(s: string, i: nat, n: nat, m: nat)
    requires i == SignLen(s) && n == DigitRun(s[i..]) && i + n < |s| && s[i + n] == '.'
    requires m == DigitRun(s[i + n + 1..]) && (n > 0 || m > 0)
    ensures IsFracMantissa(s[..i + n + 1 + m])
  {
    var k := i + n + 1 + m;
    var t := s[..k];
    assert SignLen(t) == i;
    var b := t[i..];
    DropOfTake(s, k, i);
    SliceOfSlice(s, i, k, n);
    SliceOfSlice(s, i, k, n + 1);
    TakeOfDrop(s, i, n);
    TakeOfDrop(s, i + n + 1, m);
    assert b[n] == s[i + n];
    assert PointAt(b, n);
  }

  /**
   * `float_num`: an optional sign, then `digits . digits?` or `. digits`.
   * It takes the longest fractional mantissa that starts the input and
   * errors exactly when there is none.
   */
  function FloatNum(s: string): (r: IResult<string>)
    ensures !r.Failure?
    ensures r.Ok? ==> s == r.value + r.rest && IsFracMantissa(r.value)
    ensures r.Ok? ==> forall k | |r.value| < k <= |s| :: !IsFracMantissa(s[..k])
    ensures r.Error? <==> forall k | 0 <= k <= |s| :: !IsFracMantissa(s[..k])
  {
    var i := SignLen(s);
    var n := DigitRun(s[i..]);
    if n > 0 then
      if i + n < |s| && s[i + n] == '.' then
        var m := DigitRun(s[i + n + 1..]);
        FracMantissaAt(s, i, n, m);
        Ok(s[i + n + 1 + m..], s[..i + n + 1 + m])
      else
        FracMantissaNone(s, i, n);
        Error
    else if i < |s| && s[i] == '.' then
      var m := DigitRun(s[i + 1..]);
      if m > 0 then
        FracMantissaAt(s, i, n, m);
        Ok(s[i + 1 + m..], s[..i + 1 + m])
      else
        FracMantissaNone(s, i, n);
        Error
    else
      FracMantissaNone(s, i, n);
      Error
  }

  /** `exp` takes at least any exponent that starts its input. */
  lemma ExpAtLeast(x: string, p: nat)
    requires p <= |x| && IsExponent(x[..p])
    ensures Exp(x).Ok? && p <= |Exp(x).value|
  {
    var t := x[..p];
    var g := SignLen(x[1..]);
    assert t[1..] == x[1..][..p - 1];
    assert SignLen(t[1..]) == g;
    assert x[1 + g..] == x[1..][g..];
    assert t[1..][g..] == x[1 + g..][..p - 1 - g];
    DigitRunAtLeast(x[1 + g..], p - 1 - g);
  }

  /** `exp` fails exactly on a dangling exponent. */
  lemma ExpDangling(x: string)
    ensures Exp(x).Failure? <==> DanglingExponent(x)
  {
  }

  /** An integer mantissa followed by an exponent letter ends where the digit run does. */
  lemma IntMantissaEnd(s: string, i: nat, n: nat, j: nat)
    requires i == SignLen(s) && n == DigitRun(s[i..])
    requires j < |s| && (s[j] == 'e' || s[j] == 'E') && IsIntMantissa(s[..j])
    ensures n > 0 && j == i + n
  {
    var t := s[..j];
    assert SignLen(t) == i;
    assert t[i..] == s[i..][..j - i];
    DigitRunAtLeast(s[i..], j - i);
  }

  /** Every exponent form that starts `s` ends within what the digits and `exp` take. */
  lemma ExpFormBound(s: string, i: nat, n: nat, k: nat)
    requires i == SignLen(s) && n == DigitRun(s[i..])
    requires k <= |s| && IsExpForm(s[..k])
    ensures n > 0 && Exp(s[i + n..]).Ok? && k <= i + n + |Exp(s[i + n..]).value|
  {
    var t := s[..k];
    var j :| 0 < j < |t| && IsIntMantissa(t[..j]) && IsExponent(t[j..]);
    TakeOfTake(s, k, j);
    DropOfTake(s, k, j);
    ExpFormBoundAt(s, i, n, j, k);
  }

  /** `ExpFormBound` for a form whose exponent starts at `j`. */
  lemma ExpFormBoundAt(s: string, i: nat, n: nat, j: nat, k: nat)
    requires i == SignLen(s) && n == DigitRun(s[i..])
    requires 0 < j < k <= |s| && IsIntMantissa(s[..j]) && IsExponent(s[j..k])
    ensures n > 0 && Exp(s[i + n..]).Ok? && k <= i + n + |Exp(s[i + n..]).value|
  {
    assert s[j] == s[j..k][0];
    IntMantissaEnd(s, i, n, j);
    TakeOfDrop(s, j, k - j);
    ExpAtLeast(s[j..], k - j);
  }

  /** A dangling exponent after an integer mantissa can only follow the whole digit run. */
  lemma ExpFormDangling(s: string, i: nat, n: nat)
    requires i == SignLen(s) && n == DigitRun(s[i..])
    ensures (exists j | 0 < j < |s| :: IsIntMantissa(s[..j]) && DanglingExponent(s[j..]))
      <==> n > 0 && DanglingExponent(s[i + n..])
  {
    if exists j | 0 < j < |s| :: IsIntMantissa(s[..j]) && DanglingExponent(s[j..]) {
      var j :| 0 < j < |s| && IsIntMantissa(s[..j]) && DanglingExponent(s[j..]);
      assert s[j] == s[j..][0];
      IntMantissaEnd(s, i, n, j);
    }
    if n > 0 && DanglingExponent(s[i + n..]) {
      IntMantissaFound(s, i, n);
    }
  }

  /** The sign and the digit run form an integer mantissa. */
  lemma IntMantissaFound(s: string, i: nat, n: nat)
    requires i == SignLen(s) && n == DigitRun(s[i..]) && n > 0
    ensures IsIntMantissa(s[..i + n])
  {
    assert s[..i + n][i..] == s[i..][..n];
  }

  /** When there are no digits or no exponent, no exponent form and no dangling exponent starts `s`. */
  lemma ExpFormNone(s: string, i: nat, n: nat)
    requires i == SignLen(s) && n == DigitRun(s[i..])
    requires n == 0 || Exp(s[i + n..]).Error?
    ensures forall k | 0 <= k <= |s| :: !IsExpForm(s[..k])
    ensures !exists j | 0 < j < |s| :: IsIntMantissa(s[..j]) && DanglingExponent(s[j..])
  {
    forall k | 0 <= k <= |s| ensures !IsExpForm(s[..k]) {
      if IsExpForm(s[..k]) {
        ExpFormBound(s, i, n, k);
      }
    }
    ExpFormDangling(s, i, n);
  }

  /** When digits and an exponent follow the sign, together they form what the exponent form takes. */
  lemma ExpFormTaken(s: string, i: nat, n: nat, rest: string, e: string)
    requires i == SignLen(s) && n == DigitRun(s[i..]) && n > 0
    requires s[i + n..] == e + rest && IsExponent(e)
    ensures s == s[..|s| - |rest|] + rest && IsExpForm(s[..|s| - |rest|])
    ensures |s| - |rest| == i + n + |e|
  {
    IntMantissaFound(s, i, n);
    assert s == s[..i + n] + s[i + n..];
    JoinedTaken(s, s[..i + n], s[i + n..], e, rest, false);
  }

  /** No exponent form that starts `s` ends after the digits and what `exp` takes. */
  lemma ExpFormLongest(s: string, i: nat, n: nat, end: nat)
    requires i == SignLen(s) && n == DigitRun(s[i..]) && n > 0 && Exp(s[i + n..]).Ok?
    requires end == i + n + |Exp(s[i + n..]).value|
    ensures forall k | end < k <= |s| :: !IsExpForm(s[..k])
  {
    forall k | end < k <= |s| ensures !IsExpForm(s[..k]) {
      if IsExpForm(s[..k]) {
        ExpFormBound(s, i, n, k);
      }
    }
  }

  /**
   * The first numeric alternative of `float`: optional sign, digits,
   * exponent. It takes the longest such form; it fails exactly when the
   * digits are followed by a dangling exponent.
   */
  function ExpForm(s: string): (r: IResult<string>)
    ensures r.Ok? ==> s == r.value + r.rest && IsExpForm(r.value)
    ensures r.Ok? ==> forall k | |r.value| < k <= |s| :: !IsExpForm(s[..k])
    ensures r.Error? ==> forall k | 0 <= k <= |s| :: !IsExpForm(s[..k])
    ensures r.Failure? <==> exists j | 0 < j < |s| :: IsIntMantissa(s[..j]) && DanglingExponent(s[j..])
  {
    var i := SignLen(s);
    var n := DigitRun(s[i..]);
    if n == 0 then
      ExpFormNone(s, i, n);
      Error
    else
      match Exp(s[i + n..])
      case Ok(rest, e) =>
        ExpFormTaken(s, i, n, rest, e);
        ExpFormLongest(s, i, n, |s| - |rest|);
        ExpDangling(s[i + n..]);
        ExpFormDangling(s, i, n);
        Ok(rest, s[..|s| - |rest|])
      case Error =>
        ExpFormNone(s, i, n);
        Error
      case Failure =>
        ExpDangling(s[i + n..]);
        ExpFormDangling(s, i, n);
        Failure
  }

  /** A mantissa followed by an exponent is a numeric form. */
  lemma JoinedForm(m: string, e: string, frac: bool)
    requires (if frac then IsFracMantissa(m) else IsIntMantissa(m)) && IsExponent(e)
    ensures if frac then IsFracForm(m + e) else IsExpForm(m + e)
  {
    assert (m + e)[..|m|] == m && (m + e)[|m|..] == e;
  }

  /** A mantissa and an exponent taken in a row from `s` form the prefix they consumed. */
  lemma JoinedTaken(s: string, m: string, rest: string, e: string, rest': string, frac: bool)
    requires s == m + rest && rest == e + rest'
    requires (if frac then IsFracMantissa(m) else IsIntMantissa(m)) && IsExponent(e)
    ensures s == s[..|s| - |rest'|] + rest'
    ensures if frac then IsFracForm(s[..|s| - |rest'|]) else IsExpForm(s[..|s| - |rest'|])
  {
    ConsumedTwice(s, m, rest, e, rest');
    JoinedForm(m, e, frac);
  }

  /** Two recognizers in a row consumed the prefix `a + b` of `s`. */
  lemma ConsumedTwice(s: string, a: string, rest: string, b: string, rest': string)
    requires s == a + rest && rest == b + rest'
    ensures s[..|s| - |rest'|] == a + b && s == (a + b) + rest'
  {
    assert s == (a + b) + rest';
  }

  /** A fractional mantissa followed by an exponent letter is exactly what `float_num` takes. */
  lemma FracMantissaBeforeE(s: string, j: nat)
    requires j < |s| && (s[j] == 'e' || s[j] == 'E') && IsFracMantissa(s[..j])
    ensures FloatNum(s) == Ok(s[j..], s[..j])
  {
    var v := FloatNum(s).value;
    if j < |v| {
      assert v[j] == s[j];
      MantissaHasNoE(v, j);
    }
    assert s[..|v|] == v;
  }

  /** Every fractional form that starts `s` ends within what `float_num` and `exp` take. */
  lemma FracFormBound(s: string, k: nat)
    requires k <= |s| && IsFracForm(s[..k])
    ensures FloatNum(s).Ok?
    ensures k <= |FloatNum(s).value|
      || (Exp(FloatNum(s).rest).Ok? && k <= |FloatNum(s).value| + |Exp(FloatNum(s).rest).value|)
  {
    var t := s[..k];
    if !IsFracMantissa(t) {
      var j :| 0 < j < |t| && IsFracMantissa(t[..j]) && IsExponent(t[j..]);
      TakeOfTake(s, k, j);
      DropOfTake(s, k, j);
      FracFormBoundAt(s, j, k);
      FracMantissaBeforeE(s, j);
    }
  }

  /** An exponent that occupies `s[j..k]` is taken whole, or more, by `exp`. */
  lemma FracFormBoundAt(s: string, j: nat, k: nat)
    requires j < k <= |s| && IsExponent(s[j..k])
    ensures s[j] == 'e' || s[j] == 'E'
    ensures Exp(s[j..]).Ok? && k <= j + |Exp(s[j..]).value|
  {
    assert s[j] == s[j..k][0];
    TakeOfDrop(s, j, k - j);
    ExpAtLeast(s[j..], k - j);
  }

  /** When `float_num` errors, no fractional form and no dangling exponent after one starts `s`. */
  lemma FracFormNone(s: string)
    requires FloatNum(s).Error?
    ensures forall k | 0 <= k <= |s| :: !IsFracForm(s[..k])
    ensures !exists j | 0 < j < |s| :: IsFracMantissa(s[..j]) && DanglingExponent(s[j..])
  {
    forall k | 0 <= k <= |s| ensures !IsFracForm(s[..k]) {
      if IsFracForm(s[..k]) {
        FracFormBound(s, k);
      }
    }
  }

  /** No fractional form that starts `s` ends after what `float_num` and `exp` take. */
  lemma FracFormLongest(s: string, end: nat)
    requires FloatNum(s).Ok? && |FloatNum(s).value| <= end
    requires Exp(FloatNum(s).rest).Ok? ==> |FloatNum(s).value| + |Exp(FloatNum(s).rest).value| <= end
    ensures forall k | end < k <= |s| :: !IsFracForm(s[..k])
  {
    forall k | end < k <= |s| ensures !IsFracForm(s[..k]) {
      if IsFracForm(s[..k]) {
        FracFormBound(s, k);
      }
    }
  }

  /** A dangling exponent after a fractional mantissa can only follow what `float_num` takes. */
  lemma FracFormDangling(s: string)
    requires FloatNum(s).Ok?
    ensures (exists j | 0 < j < |s| :: IsFracMantissa(s[..j]) && DanglingExponent(s[j..]))
      <==> DanglingExponent(FloatNum(s).rest)
  {
    if exists j | 0 < j < |s| :: IsFracMantissa(s[..j]) && DanglingExponent(s[j..]) {
      var j :| 0 < j < |s| && IsFracMantissa(s[..j]) && DanglingExponent(s[j..]);
      assert s[j] == s[j..][0];
      FracMantissaBeforeE(s, j);
    }
    var v := FloatNum(s).value;
    if DanglingExponent(FloatNum(s).rest) {
      FracBody(v);
      assert s[..|v|] == v && s[|v|..] == FloatNum(s).rest;
    }
  }

  /**
   * The second numeric alternative of `float`: `float_num` with an
   * optional exponent. It takes the longest such form, fails exactly on a
   * fractional mantissa with a dangling exponent, and errors exactly when
   * no fractional form starts the input.
   */
  function FracForm(s: string): (r: IResult<string>)
    ensures r.Ok? ==> s == r.value + r.rest && IsFracForm(r.value)
    ensures r.Ok? ==> forall k | |r.value| < k <= |s| :: !IsFracForm(s[..k])
    ensures r.Error? <==> forall k | 0 <= k <= |s| :: !IsFracForm(s[..k])
    ensures r.Failure? <==> exists j | 0 < j < |s| :: IsFracMantissa(s[..j]) && DanglingExponent(s[j..])
  {
    match FloatNum(s)
    case Ok(rest, num) =>
      (match Exp(rest)
       case Ok(rest', e) =>
         FracFormTaken(s, s[..|s| - |rest'|], rest');
         Ok(rest', s[..|s| - |rest'|])
       case Error =>
         FracFormTaken(s, s[..|s| - |rest|], rest);
         Ok(rest, s[..|s| - |rest|])
       case Failure =>
         FracFormDangling(s);
         ExpDangling(rest);
         assert s[..|num|] == num;
         Failure)
    case _ =>
      FracFormNone(s);
      Error
  }

  /** What `float_num`, with the exponent `exp` takes after it if any, gives the fractional form. */
  lemma FracFormTaken(s: string, v: string, rest': string)
    requires FloatNum(s).Ok? && !Exp(FloatNum(s).rest).Failure?
    requires rest' == if Exp(FloatNum(s).rest).Ok? then Exp(FloatNum(s).rest).rest else FloatNum(s).rest
    requires v == s[..|s| - |rest'|]
    ensures s == v + rest' && IsFracForm(v)
    ensures forall k | |v| < k <= |s| :: !IsFracForm(s[..k])
    ensures !exists j | 0 < j < |s| :: IsFracMantissa(s[..j]) && DanglingExponent(s[j..])
  {
    var num := FloatNum(s).value;
    var rest := FloatNum(s).rest;
    FracFormDangling(s);
    ExpDangling(rest);
    match Exp(rest)
    case Ok(r, e) =>
      JoinedTaken(s, num, rest, e, r, true);
      FracFormLongest(s, |s| - |r|);
    case Error =>
      ConsumedTwice(s, num, rest, "", rest);
      assert num + "" == num;
      FracFormLongest(s, |s| - |rest|);
  }

  /** What the two numeric alternatives of `float` decide together. */
  lemma NumericFacts(s: string)
    ensures var r := Alt(ExpForm(s), FracForm(s));
      && (r.Ok? ==> s == r.value + r.rest && IsNumericLexeme(r.value))
      && (r.Ok? ==> forall k | |r.value| < k <= |s| :: !IsNumericLexeme(s[..k]))
      && (r.Failure? <==> HasDanglingExponent(s))
      && (r.Error? <==> !HasDanglingExponent(s) && !HasNumericPrefix(s))
  {
    NumericOk(s);
    NumericFailure(s);
  }

  /**
   * The exponent form needs `e` or `E` right after the digits, a fractional
   * mantissa needs `.` there: when the first does not error, the second does.
   */
  lemma ExpFormExcludesFrac(s: string)
    ensures !ExpForm(s).Error? ==> FloatNum(s).Error? && FracForm(s).Error?
  {
    var i := SignLen(s);
    var n := DigitRun(s[i..]);
    if !ExpForm(s).Error? {
      assert n > 0 && !Exp(s[i + n..]).Error?;
      assert s[i + n..][0] == s[i + n];
    }
  }

  /** A numeric success is the longest numeric lexeme. */
  lemma NumericOk(s: string)
    ensures var r := Alt(ExpForm(s), FracForm(s));
      && (r.Ok? ==> s == r.value + r.rest && IsNumericLexeme(r.value))
      && (r.Ok? ==> forall k | |r.value| < k <= |s| :: !IsNumericLexeme(s[..k]))
  {
    ExpFormExcludesFrac(s);
    var e := ExpForm(s);
    var f := FracForm(s);
    if e.Ok? {
      assert forall k | 0 <= k <= |s| :: !IsFracForm(s[..k]);
    } else if e.Error? && f.Ok? {
      assert forall k | 0 <= k <= |s| :: !IsExpForm(s[..k]);
    }
  }

  /** The numeric alternatives fail hard exactly on a mantissa with a dangling exponent. */
  lemma NumericFailure(s: string)
    ensures var r := Alt(ExpForm(s), FracForm(s));
      && (r.Failure? <==> HasDanglingExponent(s))
      && (r.Error? <==> !HasDanglingExponent(s) && !HasNumericPrefix(s))
  {
    ExpFormExcludesFrac(s);
    DanglingMeansFailure(s);
    var e := ExpForm(s);
    var f := FracForm(s);
    if e.Failure? {
      var j :| 0 < j < |s| && IsIntMantissa(s[..j]) && DanglingExponent(s[j..]);
      assert IsMantissa(s[..j]);
    } else if e.Error? && f.Failure? {
      var j :| 0 < j < |s| && IsFracMantissa(s[..j]) && DanglingExponent(s[j..]);
      assert IsMantissa(s[..j]);
    } else if e.Ok? {
      assert IsNumericLexeme(s[..|e.value|]);
    } else if f.Ok? {
      assert IsNumericLexeme(s[..|f.value|]);
    } else {
      forall k | 0 <= k <= |s| ensures !IsNumericLexeme(s[..k]) {
      }
    }
  }

  /** A mantissa followed by a dangling exponent makes the numeric alternatives fail hard. */
  lemma DanglingMeansFailure(s: string)
    ensures HasDanglingExponent(s) ==> Alt(ExpForm(s), FracForm(s)).Failure?
  {
    if HasDanglingExponent(s) {
      ExpFormExcludesFrac(s);
      var j :| 0 < j < |s| && IsMantissa(s[..j]) && DanglingExponent(s[j..]);
      if IsIntMantissa(s[..j]) {
        assert ExpForm(s).Failure?;
      } else {
        assert FracForm(s).Failure?;
      }
    }
  }

  /** Facts about the special tokens that fix which alternative of `float` wins. */
  lemma SpecialFacts(s: string)
    ensures StartsIgnoringCase(s, "infinity") ==> StartsIgnoringCase(s, "inf")
    ensures StartsIgnoringCase(s, "-infinity") ==> StartsIgnoringCase(s, "-inf")
    ensures StartsIgnoringCase(s, "-inf") ==>
      !StartsIgnoringCase(s, "inf") && !StartsIgnoringCase(s, "infinity") && !StartsIgnoringCase(s, "nan")
  {
    if StartsIgnoringCase(s, "infinity") {
      forall i | 0 <= i < 3 ensures LowerAscii(s[..3][i]) == LowerAscii("inf"[i]) {
        assert s[..3][i] == s[..8][i];
      }
    }
    if StartsIgnoringCase(s, "-infinity") {
      forall i | 0 <= i < 4 ensures LowerAscii(s[..4][i]) == LowerAscii("-inf"[i]) {
        assert s[..4][i] == s[..9][i];
      }
    }
    if StartsIgnoringCase(s, "-inf") {
      assert LowerAscii(s[..4][0]) == '-';
    }
  }

  /**
   * `float`: the special tokens, case-insensitively and in this order, then
   * the exponent form, then the fractional form. The value is the lexeme
   * `str::parse` would convert. Because `inf` is tried before `infinity`,
   * an input starting with `infinity` yields `inf` and leaves `inity`.
   */
  function Float(s: string): (r: IResult<string>)
    ensures StartsIgnoringCase(s, "inf") || StartsIgnoringCase(s, "nan") ==> r == Ok(s[3..], s[..3])
    ensures StartsIgnoringCase(s, "-inf") ==> r == Ok(s[4..], s[..4])
    ensures r.Ok? ==> s == r.value + r.rest && IsFloatLexeme(r.value)
    ensures !HasSpecialPrefix(s) && r.Ok? ==> forall k | |r.value| < k <= |s| :: !IsNumericLexeme(s[..k])
    ensures r.Failure? <==> !HasSpecialPrefix(s) && HasDanglingExponent(s)
    ensures r.Error? <==> !HasSpecialPrefix(s) && !HasDanglingExponent(s) && !HasNumericPrefix(s)
  {
    SpecialFacts(s);
    NumericFacts(s);
    Alt(TagNoCase(s, "inf"),
    Alt(TagNoCase(s, "infinity"),
    Alt(TagNoCase(s, "nan"),
    Alt(TagNoCase(s, "-inf"),
    Alt(TagNoCase(s, "-infinity"),
    Alt(ExpForm(s), FracForm(s)))))))
  }

  /** The letter after a lexeme, split off the rest. */
  lemma SuffixLetter(s: string, lexeme: string, rest: string)
    requires s == lexeme + rest && |rest| > 0
    ensures s == lexeme + [s[|lexeme|]] + rest[1..] && s[|lexeme|] == rest[0]
  {
    assert rest == [rest[0]] + rest[1..];
  }

  /** `parse_f32`: a float lexeme that must be followed by `f` or `F`. */
  function ParseF32(s: string): (r: IResult<string>)
    ensures r.Ok? <==> Float(s).Ok? && Float(s).rest != [] && Float(s).rest[0] in "fF"
    ensures r.Ok? ==> r == Ok(Float(s).rest[1..], Float(s).value)
    ensures r.Failure? <==> Float(s).Failure?
    ensures r.Ok? ==> IsFloatLexeme(r.value) && s == r.value + [s[|r.value|]] + r.rest && s[|r.value|] in "fF"
  {
    match Float(s)
    case Ok(rest, lexeme) =>
      if |rest| > 0 && rest[0] in "fF" then
        SuffixLetter(s, lexeme, rest);
        Ok(rest[1..], lexeme)
      else Error
    case Error => Error
    case Failure => Failure
  }

  /** `parse_f64`: a float lexeme, optionally followed by `d` or `D`. */
  function ParseF64(s: string): (r: IResult<string>)
    ensures Float(s).Ok? <==> r.Ok?
    ensures r.Ok? ==> r.value == Float(s).value
    ensures r.Ok? ==> r.rest == if Float(s).rest != [] && Float(s).rest[0] in "dD" then Float(s).rest[1..] else Float(s).rest
    ensures r.Failure? <==> Float(s).Failure?
  {
    match Float(s)
    case Ok(rest, lexeme) => if |rest| > 0 && rest[0] in "dD" then Ok(rest[1..], lexeme) else Ok(rest, lexeme)
    case Error => Error
    case Failure => Failure
  }

  // ---------------------------------------------------------------------
  // parse_bool
  // ---------------------------------------------------------------------

  /** `parse_bool`: exactly `true` or `false`, case-sensitive, no word boundary. */
  function ParseBool(s: string): (r: IResult<bool>)
    ensures !r.Failure?
    ensures r.Ok? && r.value ==> s == "true" + r.rest
    ensures r.Ok? && !r.value ==> s == "false" + r.rest
    ensures r.Error? <==> !(|s| >= 4 && s[..4] == "true") && !(|s| >= 5 && s[..5] == "false")
  {
    var t := Tag(s, "true");
    var f := Tag(s, "false");
    Alt(if t.Ok? then Ok(t.rest, true) else Error,
        if f.Ok? then Ok(f.rest, false) else Error)
  }

  // ---------------------------------------------------------------------
  // strings: parse_simple_string, parse_escaped, parse_str
  // ---------------------------------------------------------------------

  predicate IsAsciiAlphanumeric(c: char) {
    'a' <= c <= 'z' || 'A' <= c <= 'Z' || IsDigit(c)
  }

  predicate IsStringSymbol(c: char) {
    c == '_' || c == '-' || c == '.' || c == '+'
  }

  predicate IsSimpleChar(c: char) {
    IsAsciiAlphanumeric(c) || IsStringSymbol(c)
  }

  /** Length of the longest prefix whose characters all satisfy the class (`alphanumeric1` or `is_a`). */
  function ClassRun(s: string, alnum: bool): (n: nat)
    ensures n <= |s|
    ensures forall i :: 0 <= i < n ==> (if alnum then IsAsciiAlphanumeric(s[i]) else IsStringSymbol(s[i]))
    ensures n < |s| ==> !(if alnum then IsAsciiAlphanumeric(s[n]) else IsStringSymbol(s[n]))
    decreases |s|
  {
    if |s| > 0 && (if alnum then IsAsciiAlphanumeric(s[0]) else IsStringSymbol(s[0])) then 1 + ClassRun(s[1..], alnum)
    else 0
  }

  /** One step of `many1(alt((alphanumeric1, is_a("_-.+"))))`: how much it consumes, 0 on error. */
  function SimpleChunk(s: string): (n: nat)
    ensures n <= |s|
    ensures forall i :: 0 <= i < n ==> IsSimpleChar(s[i])
    ensures (n == 0) == (|s| == 0 || !IsSimpleChar(s[0]))
  {
    var a := ClassRun(s, true);
    if a > 0 then a else ClassRun(s, false)
  }

  /** The repetition of `many1`: chunks until the next one errors. */
  function SimpleRun(s: string): (n: nat)
    ensures n <= |s|
    ensures forall i :: 0 <= i < n ==> IsSimpleChar(s[i])
    ensures n < |s| ==> !IsSimpleChar(s[n])
    decreases |s|
  {
    var c := SimpleChunk(s);
    if c == 0 then 0
    else
      var n := c + SimpleRun(s[c..]);
      assert forall i :: c <= i < n ==> s[i] == s[c..][i - c];
      n
  }

  /** `parse_simple_string`: a non-empty maximal run of `[A-Za-z0-9_\-.+]`. */
  function ParseSimpleString(s: string): (r: IResult<string>)
    ensures !r.Failure?
    ensures r.Ok? <==> |s| > 0 && IsSimpleChar(s[0])
    ensures r.Ok? ==> s == r.value + r.rest && r.value != []
    ensures r.Ok? ==> (forall i :: 0 <= i < |r.value| ==> IsSimpleChar(r.value[i])) && (r.rest == [] || !IsSimpleChar(r.rest[0]))
  {
    var n := SimpleRun(s);
    if n == 0 then Error else Ok(s[n..], s[..n])
  }

  /** What scanning a quoted body found: the decoded text, the index of the closing quote, whether a `\` occurred. */
  datatype Scan = Scan(text: string, close: nat, escaped: bool)

  /**
   * Reference reading of a quoted body: `\X` stands for `X` whatever `X` is,
   * and the body ends at the first unescaped `q`. None when there is no
   * such `q` (including a body ending in a lone `\`).
   */
  function Unescape(s: string, q: char): (r: Option<Scan>)
    ensures r.Some? ==> r.value.close < |s| && s[r.value.close] == q
    decreases |s|
  {
    if |s| == 0 then None
    else if s[0] == '\\' then
      if |s| == 1 then None
      else
        match Unescape(s[2..], q)
        case None => None
        case Some(sc) => Some(Scan([s[1]] + sc.text, sc.close + 2, true))
    else if s[0] == q then Some(Scan("", 0, false))
    else
      match Unescape(s[1..], q)
      case None => None
      case Some(sc) => Some(Scan([s[0]] + sc.text, sc.close + 1, sc.escaped))
  }

  /** The result `parse_escaped(q)` is specified to return. */
  function EscapedResult(s: string, q: char): (r: IResult<Cow>)
    ensures !r.Failure?
    ensures r.Ok? ==> IsSuffix(r.rest, s) && |r.rest| > 0 && r.rest[0] == q
  {
    match Unescape(s, q)
    case None => Error
    case Some(sc) => Ok(s[sc.close..], if sc.escaped then Owned(sc.text) else Borrowed(s[..sc.close]))
  }

  /** The unconsumed part of a scan, shifted by `offset` characters and with `prefix` in front. */
  function Prepend(prefix: string, r: Option<Scan>, offset: nat, escaped: bool): Option<Scan> {
    match r
    case None => None
    case Some(sc) => Some(Scan(prefix + sc.text, sc.close + offset, escaped || sc.escaped))
  }

  lemma PrependNothing(r: Option<Scan>)
    ensures Prepend("", r, 0, false) == r
  {
    if r.Some? {
      assert "" + r.value.text == r.value.text;
    }
  }

  lemma PrependTwice(a: string, b: string, r: Option<Scan>, o1: nat, o2: nat, e1: bool, e2: bool)
    ensures Prepend(a, Prepend(b, r, o2, e2), o1, e1) == Prepend(a + b, r, o1 + o2, e1 || e2)
  {
    if r.Some? {
      assert a + (b + r.value.text) == (a + b) + r.value.text;
    }
  }

  /** One ordinary character of a quoted body. */
  lemma UnescapePlainStep(s: string, q: char, i: nat)
    requires i < |s| && s[i] != '\\' && s[i] != q
    ensures Unescape(s[i..], q) == Prepend([s[i]], Unescape(s[i + 1..], q), 1, false)
  {
    assert s[i..][1..] == s[i + 1..];
  }

  /** One escape sequence `\X` of a quoted body. */
  lemma UnescapeEscapeStep(s: string, q: char, i: nat)
    requires i + 1 < |s| && s[i] == '\\'
    ensures Unescape(s[i..], q) == Prepend([s[i + 1]], Unescape(s[i + 2..], q), 2, true)
  {
    assert s[i..][2..] == s[i + 2..];
  }

  /**
   * What the loop of `parse_escaped(q)` knows after reading `i` characters:
   * the reference reading of the whole body is the text collected so far
   * (`owned` and the pending run from `start`), followed by the reading of
   * the rest. With `skip` set, the character before `i` is an unfinished `\`.
   */
  ghost predicate EscapeLoop(s: string, q: char, owned: string, start: nat, skip: bool, i: nat) {
    && start <= i <= |s|
    && (!skip ==> Unescape(s, q) == Prepend(owned + s[start..i], Unescape(s[i..], q), i, owned != ""))
    && (skip ==> 0 < i && s[i - 1] == '\\' && start <= i - 1
                 && Unescape(s, q) == Prepend(owned, Unescape(s[i - 1..], q), i - 1, true))
  }

  lemma EscapeLoopStart(s: string, q: char)
    ensures EscapeLoop(s, q, "", 0, false, 0)
  {
    assert s[0..] == s && "" + s[0..0] == "";
    PrependNothing(Unescape(s, q));
  }

  /** The character after a `\` is taken literally and a new run starts after it. */
  lemma EscapeLoopSkip(s: string, q: char, owned: string, start: nat, i: nat)
    requires EscapeLoop(s, q, owned, start, true, i) && i < |s|
    ensures EscapeLoop(s, q, owned + [s[i]], i + 1, false, i + 1)
  {
    UnescapeEscapeStep(s, q, i - 1);
    PrependTwice(owned, [s[i]], Unescape(s[i + 1..], q), i - 1, 2, true, true);
    assert owned + [s[i]] + s[i + 1..i + 1] == owned + [s[i]];
  }

  /** A `\` moves the pending run into `owned`. */
  lemma EscapeLoopBackslash(s: string, q: char, owned: string, start: nat, i: nat)
    requires EscapeLoop(s, q, owned, start, false, i) && i < |s| && s[i] == '\\'
    ensures EscapeLoop(s, q, owned + s[start..i], start, true, i + 1)
  {
    assert Unescape(s[i..], q).Some? ==> Unescape(s[i..], q).value.escaped;
  }

  /** Any other character extends the pending run. */
  lemma EscapeLoopPlain(s: string, q: char, owned: string, start: nat, i: nat)
    requires EscapeLoop(s, q, owned, start, false, i) && i < |s| && s[i] != '\\' && s[i] != q
    ensures EscapeLoop(s, q, owned, start, false, i + 1)
  {
    UnescapePlainStep(s, q, i);
    PrependTwice(owned + s[start..i], [s[i]], Unescape(s[i + 1..], q), i, 1, owned != "", false);
    assert owned + s[start..i] + [s[i]] == owned + s[start..i + 1];
  }

  /** The closing quote: owned text if anything was escaped, else the input up to the quote. */
  lemma EscapeLoopQuote(s: string, q: char, owned: string, start: nat, i: nat)
    requires EscapeLoop(s, q, owned, start, false, i) && i < |s| && s[i] != '\\' && s[i] == q
    ensures EscapedResult(s, q) == Ok(s[i..], if owned != "" then Owned(owned + s[start..i]) else Borrowed(s[..i]))
    ensures start == i ==> owned + s[start..i] == owned
  {
    assert Unescape(s[i..], q) == Some(Scan("", 0, false));
    assert owned + s[start..i] + "" == owned + s[start..i];
    if start == i {
      assert owned + s[start..i] == owned;
    }
  }

  /** Running out of input without a closing quote. */
  lemma EscapeLoopEnd(s: string, q: char, owned: string, start: nat, skip: bool)
    requires EscapeLoop(s, q, owned, start, skip, |s|)
    ensures EscapedResult(s, q) == Error
  {
    if skip {
      assert s[|s| - 1..] == "\\";
    } else {
      assert s[|s|..] == "";
    }
  }

  /**
   * `parse_escaped(q)`: one pass over the characters. Nothing is copied
   * until the first `\`; from then on `owned` collects the runs between
   * escapes and each escaped character.
   */
  method ParseEscaped(s: string, q: char) returns (r: IResult<Cow>)
    ensures r == EscapedResult(s, q)
  {
    var owned := "";
    var start := 0;
    var skip := false;
    var i := 0;
    EscapeLoopStart(s, q);
    while i < |s|
      invariant EscapeLoop(s, q, owned, start, skip, i)
    {
      var c := s[i];
      if skip {
        EscapeLoopSkip(s, q, owned, start, i);
        skip := false;
        owned := owned + [c];
        start := i + 1;
      } else if c == '\\' {
        var len := i;
        EscapeLoopBackslash(s, q, owned, start, len);
        owned := owned + s[start..len];
        skip := true;
      } else if c == q {
        var len := i;
        EscapeLoopQuote(s, q, owned, start, len);
        if owned != "" {
          if len > start {
            owned := owned + s[start..len];
          }
          return Ok(s[len..], Owned(owned));
        } else {
          return Ok(s[len..], Borrowed(s[..len]));
        }
      } else {
        EscapeLoopPlain(s, q, owned, start, i);
      }
      i := i + 1;
    }
    EscapeLoopEnd(s, q, owned, start, skip);
    return Error;
  }

  /** `delimited(char(q), parse_escaped(q), char(q))`. */
  function Quoted(s: string, q: char): (r: IResult<Cow>)
    ensures !r.Failure?
    ensures r.Ok? <==> |s| > 0 && s[0] == q && Unescape(s[1..], q).Some?
    ensures r.Ok? ==> var sc := Unescape(s[1..], q).value;
      && r.rest == s[sc.close + 2..]
      && r.value == if sc.escaped then Owned(sc.text) else Borrowed(s[1..sc.close + 1])
    ensures r.Ok? ==> IsSuffix(r.rest, s) && |s| > |r.rest| && s[0] == q
  {
    if |s| > 0 && s[0] == q then
      match EscapedResult(s[1..], q)
      case Ok(rest, v) =>
        if |rest| > 0 && rest[0] == q then
          QuotedSlices(s, Unescape(s[1..], q).value.close);
          Ok(rest[1..], v)
        else Error
      case _ => Error
    else Error
  }

  /** The slices of `s` around a closing quote at `close` of the body `s[1..]`. */
  lemma QuotedSlices(s: string, close: nat)
    requires 0 < |s| && close < |s| - 1
    ensures s[1..][close..][1..] == s[close + 2..] && s[1..][..close] == s[1..close + 1]
  {
  }

  /** The bare alternative of `parse_str`: a simple string, borrowed. */
  function BareStr(s: string): IResult<Cow> {
    match ParseSimpleString(s)
    case Ok(rest, v) => Ok(rest, Borrowed(v))
    case _ => Error
  }

  /**
   * `parse_str`: double-quoted, then single-quoted, then a bare string. A
   * bare string is always borrowed.
   */
  function ParseStr(s: string): (r: IResult<Cow>)
    ensures !r.Failure?
    ensures r.Ok? ==> IsSuffix(r.rest, s) && |s| > |r.rest|
    ensures r.Ok? && r.value.Owned? ==> |s| > 0 && (s[0] == '"' || s[0] == '\'')
    ensures |s| > 0 && s[0] == '"' ==> r == Quoted(s, '"')
    ensures |s| > 0 && s[0] == '\'' ==> r == Quoted(s, '\'')
    ensures |s| > 0 && IsSimpleChar(s[0]) ==> r == Ok(ParseSimpleString(s).rest, Borrowed(ParseSimpleString(s).value))
    ensures |s| == 0 || (s[0] != '"' && s[0] != '\'' && !IsSimpleChar(s[0])) ==> r == Error
  {
    Alt(Quoted(s, '"'), Alt(Quoted(s, '\''), BareStr(s)))
  }
}
