/**
 * Properties of the sNBT literal recognizers that relate several calls or
 * hold for whole families of inputs.
 */
module ParserLemmas {
  import opened Numerals
  import opened Parser

  // ---------------------------------------------------------------------
  // quoted strings
  // ---------------------------------------------------------------------

  /**
   * A quoted body is reported as escaped exactly when a `\` occurs before
   * its closing quote, and a body without escapes decodes to itself.
   */
  lemma {:induction false} UnescapeEscapedIffBackslash(s: string, q: char)
    requires Unescape(s, q).Some?
    ensures var sc := Unescape(s, q).value;
      && (sc.escaped <==> '\\' in s[..sc.close])
      && (!sc.escaped ==> sc.text == s[..sc.close])
    decreases |s|
  {
    var sc := Unescape(s, q).value;
    if s[0] == '\\' {
      assert s[..sc.close][0] == '\\';
    } else if s[0] == q {
    } else {
      UnescapeEscapedIffBackslash(s[1..], q);
      var sc' := Unescape(s[1..], q).value;
      assert s[..sc.close] == [s[0]] + s[1..][..sc'.close];
    }
  }

  /**
   * `parse_escaped` borrows exactly when no `\` precedes the closing quote,
   * and what it returns then is the input up to that quote.
   */
  lemma EscapedBorrowsIffNoBackslash(s: string, q: char)
    requires EscapedResult(s, q).Ok?
    ensures var r := EscapedResult(s, q); var close := |s| - |r.rest|;
      && (r.value.Borrowed? <==> '\\' !in s[..close])
      && (r.value.Borrowed? ==> r.value.slice == s[..close])
  {
    UnescapeEscapedIffBackslash(s, q);
  }

  /**
   * A quoted string that is never closed is a recoverable error for
   * `parse_escaped`, so `parse_str` goes on to its other alternatives;
   * neither accepts a leading quote, so the whole parse is an Error.
   */
  lemma {:induction false} UnterminatedQuoteIsError(body: string, q: char)
    requires q == '"' || q == '\''
    requires Unescape(body, q).None?
    ensures ParseStr([q] + body) == Error
  {
    var s := [q] + body;
    assert s[1..] == body;
    assert Quoted(s, q) == Error;
    assert !IsSimpleChar(s[0]);
  }

  /** A single-quoted string without escapes is borrowed: `'ab'` gives `ab`. */
  lemma SingleQuotedBorrowed()
    ensures ParseStr("'ab'") == Ok("", Borrowed("ab"))
  {
    var s := "'ab'";
    assert s[1..] == "ab'" && "ab'"[1..] == "b'" && "b'"[1..] == "'";
    assert Unescape("'", '\'') == Some(Scan("", 0, false));
    assert Unescape("b'", '\'') == Some(Scan("b", 1, false)) by {
      assert ['b'] + "" == "b";
    }
    assert Unescape("ab'", '\'') == Some(Scan("ab", 2, false)) by {
      assert ['a'] + "b" == "ab";
    }
    assert s[1..3] == "ab" && s[4..] == "";
  }

  /** A hand-written escape decodes to the escaped letter: `"a\nb"` gives `anb`, owned. */
  lemma EscapedLetterDecodes()
    ensures ParseStr("\"a\\nb\"") == Ok("", Owned("anb"))
  {
    var s := "\"a\\nb\"";
    assert s[1..] == "a\\nb\"" && "a\\nb\""[1..] == "\\nb\"" && "\\nb\""[2..] == "b\"" && "b\""[1..] == "\"";
    assert Unescape("\"", '"') == Some(Scan("", 0, false));
    assert Unescape("b\"", '"') == Some(Scan("b", 1, false)) by {
      assert ['b'] + "" == "b";
    }
    assert Unescape("\\nb\"", '"') == Some(Scan("nb", 3, true)) by {
      assert ['n'] + "b" == "nb";
    }
    assert Unescape("a\\nb\"", '"') == Some(Scan("anb", 4, true)) by {
      assert ['a'] + "nb" == "anb";
    }
    assert s[6..] == "";
  }

  /**
   * A bare word is read up to the first character outside its class and is
   * borrowed, whatever follows that character.
   */
  lemma BareWord(w: string, rest: string)
    requires |w| > 0 && forall i :: 0 <= i < |w| ==> IsSimpleChar(w[i])
    requires rest == [] || !IsSimpleChar(rest[0])
    ensures ParseStr(w + rest) == Ok(rest, Borrowed(w))
  {
    var s := w + rest;
    assert s[0] == w[0];
    assert forall i :: 0 <= i < |w| ==> s[i] == w[i];
    assert s[..|w|] == w && s[|w|..] == rest;
  }

  /** `abc def` gives `abc`, borrowed, and leaves ` def`. */
  lemma BareWordStops()
    ensures ParseStr("abc def") == Ok(" def", Borrowed("abc"))
  {
    var w := "abc";
    assert IsSimpleChar(w[0]) && IsSimpleChar(w[1]) && IsSimpleChar(w[2]);
    assert !IsSimpleChar(" def"[0]);
    assert "abc def" == w + " def";
    BareWord(w, " def");
  }

  /** A trailing lone backslash never closes a quoted body. */
  lemma {:induction false} TrailingBackslashUnterminated(body: string, q: char)
    requires q != '\\'
    requires forall i :: 0 <= i < |body| ==> body[i] != q && body[i] != '\\'
    ensures Unescape(body + "\\", q).None?
    decreases |body|
  {
    if |body| > 0 {
      assert (body + "\\")[1..] == body[1..] + "\\";
      TrailingBackslashUnterminated(body[1..], q);
    }
  }

  // ---------------------------------------------------------------------
  // decimal and integer tokens
  // ---------------------------------------------------------------------

  /** `decimal` stops after a leading `0`: on `007` it consumes only `0`. */
  lemma DecimalLeadingZero(rest: string)
    ensures Decimal("0" + rest) == Ok(rest, "0")
  {
    assert ("0" + rest)[..1] == "0" && ("0" + rest)[1..] == rest;
  }

  /**
   * `decimal` consumes a whole decimal lexeme when no digit follows it:
   * what it returns is the lexeme and nothing more.
   */
  lemma DecimalTakesLexeme(lex: string, rest: string)
    requires IsDecimalLexeme(lex)
    requires rest == [] || !IsDigit(rest[0])
    ensures Decimal(lex + rest) == Ok(rest, lex)
  {
    var s := lex + rest;
    var i := SignLen(lex);
    assert SignLen(s) == i;
    assert s[i..] == lex[i..] + rest;
    if lex[i..] == "0" {
      assert s[..i + 1] == lex && s[i + 1..] == rest;
    } else {
      var k := |lex| - i - 1;
      assert s[i + 1..][..k] == lex[i + 1..];
      DigitRunPrefix(s[i + 1..], k);
      assert s[..|lex|] == lex && s[|lex|..] == rest;
    }
  }

  /** `parse_i32` leaves a suffix letter unconsumed: `5b` gives 5 with `b` left over. */
  lemma I32LeavesSuffix(digits: string, letter: char)
    requires |digits| > 0 && AllDigits(digits) && '1' <= digits[0] <= '9'
    requires letter in "bBsSlL"
    requires DigitsValue(digits) < 0x8000_0000
    ensures ParseI32(digits + [letter]) == Ok([letter], DigitsValue(digits) as i32)
  {
    assert SignLen(digits) == 0 && digits[0..] == digits;
    DecimalTakesLexeme(digits, [letter]);
    assert ParseSigned(digits, -0x8000_0000, 0x7fff_ffff) == Some(DigitsValue(digits) as int);
  }

  /** Every decimal lexeme is a text `str::parse` reads as a signed integer. */
  lemma DecimalLexemeIsSignedDigits(lex: string)
    requires IsDecimalLexeme(lex)
    ensures IsSignedDigits(lex)
  {
    var body := lex[SignLen(lex)..];
    assert AllDigits(body) by {
      if body == "0" {
        assert IsDigit(body[0]);
      }
    }
  }

  /**
   * A sized integer parser with a suffix accepts every decimal lexeme, with
   * or without a sign, followed by one of its letters: the value when it is
   * in range and an Error otherwise, whatever follows the letter.
   */
  lemma SuffixedIntOfLexeme(lex: string, letter: char, tail: string, letters: string, lo: int, hi: int)
    requires IsDecimalLexeme(lex) && letter in letters && !IsDigit(letter)
    ensures IsSignedDigits(lex)
    ensures SuffixedInt(lex + [letter] + tail, letters, lo, hi)
      == if lo <= SignedValue(lex) <= hi then Ok(tail, SignedValue(lex)) else Error
  {
    DecimalLexemeIsSignedDigits(lex);
    assert lex + [letter] + tail == lex + ([letter] + tail);
    DecimalTakesLexeme(lex, [letter] + tail);
    assert ([letter] + tail)[1..] == tail;
  }

  /** `parse_i32` accepts every decimal lexeme not followed by a digit, exactly when it is in range. */
  lemma I32OfLexeme(lex: string, tail: string)
    requires IsDecimalLexeme(lex) && (tail == [] || !IsDigit(tail[0]))
    ensures IsSignedDigits(lex)
    ensures ParseI32(lex + tail)
      == if -0x8000_0000 <= SignedValue(lex) <= 0x7fff_ffff then Ok(tail, SignedValue(lex) as i32) else Error
  {
    DecimalLexemeIsSignedDigits(lex);
    DecimalTakesLexeme(lex, tail);
  }

  /** A leading `+` is accepted: `+5b` is 5. */
  lemma PlusSignAccepted()
    ensures ParseI8("+5b") == Ok("", 5)
  {
    assert "+5"[1..] == "5";
    assert "+5b" == "+5" + ['b'] + "";
    SuffixedIntOfLexeme("+5", 'b', "", "bB", -0x80, 0x7f);
  }

  /** A negative zero is accepted: `-0B` is 0. */
  lemma NegativeZeroAccepted()
    ensures ParseI8("-0B") == Ok("", 0)
  {
    assert "-0"[1..] == "0" && "0"[..0] == "";
    assert IsDecimalLexeme("-0") && DigitsValue("0") == 0;
    assert "-0B" == "-0" + ['B'] + "";
    SuffixedIntOfLexeme("-0", 'B', "", "bB", -0x80, 0x7f);
    assert SignedValue("-0") == 0;
    assert SuffixedInt("-0B", "bB", -0x80, 0x7f) == Ok("", 0);
  }

  /** A `+` does not widen the range: `+128b` is an Error of `parse_i8`. */
  lemma PlusOutOfRange()
    ensures ParseI8("+128b") == Error
  {
    assert "+128"[1..] == "128";
    assert DigitsValue("128") == 128 by {
      assert "128"[..2] == "12" && "12"[..1] == "1";
    }
    assert "+128b" == "+128" + ['b'] + "";
    SuffixedIntOfLexeme("+128", 'b', "", "bB", -0x80, 0x7f);
  }

  /** A value outside a width's range is rejected through `map_res`, not clipped. */
  lemma I8OutOfRange()
    ensures ParseI8("128b") == Error
  {
    assert "128b" == "128" + "b";
    DecimalTakesLexeme("128", "b");
    assert DigitsValue("128") == 128 by {
      assert "128"[..2] == "12" && "12"[..1] == "1";
    }
    assert ParseSigned("128", -0x80, 0x7f) == None;
    assert SuffixedInt("128b", "bB", -0x80, 0x7f) == Error;
  }

  // ---------------------------------------------------------------------
  // float grammar
  // ---------------------------------------------------------------------

  /** No special token and no numeric form starts with a digit followed by a non-letter. */
  lemma {:induction false} DigitStartsNoToken(s: string)
    requires |s| > 0 && IsDigit(s[0])
    ensures TagNoCase(s, "inf").Error? && TagNoCase(s, "infinity").Error? && TagNoCase(s, "nan").Error?
    ensures TagNoCase(s, "-inf").Error? && TagNoCase(s, "-infinity").Error?
  {
    assert LowerAscii(s[0]) == s[0];
  }

  /** The character at `p` of an input that starts with `token` is that of the token, up to case. */
  lemma TokenLetter(s: string, token: string, p: nat)
    requires StartsIgnoringCase(s, token) && p < |token|
    ensures LowerAscii(s[p]) == LowerAscii(token[p])
  {
    assert s[..|token|][p] == s[p];
  }

  /** `inf` is tried before `infinity`, so on `infinity` (any case) only `inf` is consumed. */
  lemma InfinityConsumesInf(s: string)
    requires StartsIgnoringCase(s, "infinity")
    ensures Float(s) == Ok(s[3..], s[..3])
    ensures ParseF64(s) == Ok(s[3..], s[..3])
  {
    SpecialFacts(s);
    TokenLetter(s, "infinity", 3);
    assert s[3..][0] == s[3] && s[3] !in "dD";
  }

  /** Likewise `-inf` is tried before `-infinity`: `-INFINITY` yields `-INF` and leaves `INITY`. */
  lemma MinusInfinityConsumesMinusInf(s: string)
    requires StartsIgnoringCase(s, "-infinity")
    ensures Float(s) == Ok(s[4..], s[..4])
    ensures ParseF32(s).Error?
  {
    SpecialFacts(s);
    TokenLetter(s, "-infinity", 4);
    assert s[4..][0] == s[4] && s[4] !in "fF";
  }

  /** A mantissa starts with a sign, a digit or a point, never with a letter of a special token. */
  lemma MantissaNotSpecial(m: string, x: string)
    requires IsMantissa(m)
    ensures !HasSpecialPrefix(m + x)
  {
    var g := SignLen(m);
    var b := m[g..];
    assert |b| > 0 && (IsDigit(b[0]) || b[0] == '.') by {
      if !IsIntMantissa(m) {
        FracBody(m);
      }
    }
    var u := m + x;
    assert u[g] == b[0];
  }

  /** A plain digit run is not a float: a `.` or an exponent is needed. */
  lemma {:induction false} PlainIntegerIsNotFloat(digits: string, rest: string)
    requires |digits| > 0 && AllDigits(digits)
    requires rest == [] || (!IsDigit(rest[0]) && rest[0] != '.' && rest[0] != 'e' && rest[0] != 'E')
    ensures Float(digits + rest) == Error
  {
    var s := digits + rest;
    DigitStartsNoToken(s);
    assert s[..|digits|] == digits;
    DigitRunPrefix(s, |digits|);
    assert s[|digits|..] == rest;
  }

  /**
   * An `e` or `E` and an optional sign with no digits after a mantissa is a
   * hard Failure that no alternative recovers from: `1e`, `1e+x`, `1.5e`.
   */
  lemma DanglingExponentFails(m: string, x: string)
    requires IsMantissa(m) && DanglingExponent(x)
    ensures Float(m + x) == Failure
    ensures ParseF32(m + x) == Failure
    ensures ParseF64(m + x) == Failure
  {
    MantissaNotSpecial(m, x);
    var s := m + x;
    assert s[..|m|] == m && s[|m|..] == x;
    assert |m| > 0 by {
      assert m[SignLen(m)..] != [] by {
        if !IsIntMantissa(m) {
          FracBody(m);
        }
      }
    }
    assert IsMantissa(s[..|m|]) && DanglingExponent(s[|m|..]);
  }

  /** `1e+x`: the sign after `e` is taken, then `cut` finds no digit. */
  lemma SignedDanglingExponentFails()
    ensures Float("1e+x") == Failure
  {
    assert "1e+x" == "1" + "e+x";
    assert IsIntMantissa("1");
    assert DanglingExponent("e+x") by {
      assert "e+x"[1..] == "+x" && "+x"[1..] == "x";
    }
    DanglingExponentFails("1", "e+x");
  }

  /** `1.5e`: the fractional form fails the same way. */
  lemma FractionDanglingExponentFails()
    ensures Float("1.5e") == Failure
  {
    var m := "1.5";
    assert "1.5e" == m + "e";
    assert IsFracMantissa(m) by {
      assert SignLen(m) == 0 && m[0..] == m;
      assert m[..1] == "1" && m[2..] == "5";
      assert PointAt(m, 1);
    }
    DanglingExponentFails(m, "e");
  }

  /** The fractional form: `1.` is a float with an empty fraction. */
  lemma {:induction false} TrailingPointIsFloat(digits: string, rest: string)
    requires |digits| > 0 && AllDigits(digits)
    requires rest == [] || (!IsDigit(rest[0]) && rest[0] != 'e' && rest[0] != 'E')
    ensures Float(digits + "." + rest) == Ok(rest, digits + ".")
  {
    var s := digits + "." + rest;
    var n := |digits|;
    assert SignLen(s) == 0 && s[0..] == s;
    assert DigitRun(s) == n by {
      assert s[..n] == digits;
      DigitRunPrefix(s, n);
    }
    assert ExpForm(s) == Error by {
      assert s[n..][0] == '.';
    }
    assert FloatNum(s) == Ok(rest, digits + ".") by {
      assert s[n + 1..] == rest && s[..n + 1] == digits + ".";
      DigitRunPrefix(rest, 0);
    }
    assert FracForm(s) == Ok(rest, digits + ".") by {
      ConsumedTwice(s, digits + ".", rest, "", rest);
    }
    DigitStartsNoToken(s);
  }
}
