/**
 * Round trips between the two halves of the codec: what the serializer
 * writes for a string or an integer is read back by the literal parser
 * as the same value, with whatever follows left untouched.
 */
module RoundTrip {
  import opened Numerals
  import opened Parser
  import opened Ser
  import opened ParserLemmas

  // ---------------------------------------------------------------------
  // strings: write_escaped_str against parse_str
  // ---------------------------------------------------------------------

  /** Whether `write_escaped_str` has anything to escape in `x`. */
  predicate HasSpecial(x: string)
    decreases |x|
  {
    x != [] && (NeedsEscape(x[0]) || HasSpecial(x[1..]))
  }

  /** Something has to be escaped exactly when `x` holds a `"` or a `\`. */
  lemma {:induction false} HasSpecialIffQuoteOrBackslash(x: string)
    ensures HasSpecial(x) <==> '"' in x || '\\' in x
    decreases |x|
  {
    if x != [] {
      HasSpecialIffQuoteOrBackslash(x[1..]);
      assert x == [x[0]] + x[1..];
    }
  }

  /** Reading `\c` and then more: `c`, then the reading of the rest. */
  lemma UnescapeBackslashHead(c: char, more: string, q: char)
    ensures Unescape(['\\', c] + more, q) == Prepend([c], Unescape(more, q), 2, true)
  {
    assert (['\\', c] + more)[2..] == more;
  }

  /** Reading an ordinary `c` and then more: `c`, then the reading of the rest. */
  lemma UnescapePlainHead(c: char, more: string, q: char)
    requires c != '\\' && c != q
    ensures Unescape([c] + more, q) == Prepend([c], Unescape(more, q), 1, false)
  {
    assert ([c] + more)[1..] == more;
  }

  /**
   * Reading an escaped body up to a closing `"` gives back the original
   * text; the quote found is the one right after the escaped body, and the
   * reading is marked escaped exactly when something had to be escaped.
   */
  lemma {:induction false} UnescapeOfEscape(x: string, tail: string)
    requires |tail| > 0 && tail[0] == '"'
    ensures Unescape(Escape(x) + tail, '"') == Some(Scan(x, |Escape(x)|, HasSpecial(x)))
    decreases |x|
  {
    if x == [] {
      assert Escape(x) + tail == tail;
    } else {
      var more := Escape(x[1..]) + tail;
      UnescapeOfEscape(x[1..], tail);
      assert [x[0]] + x[1..] == x;
      var head := if NeedsEscape(x[0]) then ['\\', x[0]] else [x[0]];
      assert Escape(x) == head + Escape(x[1..]);
      AppendAssoc(head, Escape(x[1..]), tail);
      assert |Escape(x)| == |head| + |Escape(x[1..])|;
      assert HasSpecial(x) == (NeedsEscape(x[0]) || HasSpecial(x[1..]));
      if NeedsEscape(x[0]) {
        UnescapeBackslashHead(x[0], more, '"');
      } else {
        UnescapePlainHead(x[0], more, '"');
      }
    }
  }

  /** A string without `"` and `\` is its own escaped form. */
  lemma {:induction false} NoSpecialEscapesToItself(x: string)
    requires !HasSpecial(x)
    ensures Escape(x) == x
    decreases |x|
  {
    if x != [] {
      NoSpecialEscapesToItself(x[1..]);
      assert [x[0]] + x[1..] == x;
    }
  }

  /**
   * The string round trip: `parse_str` reads back exactly the text that
   * `write_escaped_str` quoted, leaves what follows the closing quote, and
   * borrows exactly when nothing had to be escaped.
   */
  lemma StrRoundTrip(x: string, rest: string)
    ensures ParseStr(QuotedText(x) + rest) == Ok(rest, if HasSpecial(x) then Owned(x) else Borrowed(x))
  {
    var e := Escape(x);
    var s := QuotedText(x) + rest;
    var tail := "\"" + rest;
    assert s == "\"" + (e + tail);
    assert s[1..] == e + tail;
    UnescapeOfEscape(x, tail);
    assert (e + tail)[|e|..] == tail && (e + tail)[..|e|] == e;
    if !HasSpecial(x) {
      NoSpecialEscapesToItself(x);
    }
    assert tail[1..] == rest;
    assert Quoted(s, '"') == Ok(rest, if HasSpecial(x) then Owned(x) else Borrowed(x));
  }

  /** What the serializer writes for a string value is read back as that string. */
  lemma SerializedStrRoundTrip(x: string, d: Option<nat>)
    ensures ParseStr(Emit(Str(x), d).text) == Ok("", if HasSpecial(x) then Owned(x) else Borrowed(x))
    ensures ParseStr(Emit(Str(x), d).text).value.Text() == x
  {
    var t := Emit(Str(x), d).text;
    assert t == QuotedText(x) + "";
    StrRoundTrip(x, "");
  }

  /** A `char` goes through the string path and comes back as a one-character string. */
  lemma SerializedCharRoundTrip(c: char, d: Option<nat>)
    ensures ParseStr(Emit(Char(c), d).text).Ok?
    ensures ParseStr(Emit(Char(c), d).text).rest == "" && ParseStr(Emit(Char(c), d).text).value.Text() == [c]
  {
    var t := Emit(Char(c), d).text;
    assert t == QuotedText([c]) + "";
    StrRoundTrip([c], "");
  }

  // ---------------------------------------------------------------------
  // integers: itoa plus a type letter against parse_i8 / i16 / i32 / i64
  // ---------------------------------------------------------------------

  /** What itoa writes is a decimal lexeme: an optional `-`, then `0` or no leading zero. */
  lemma ItoaIsDecimalLexeme(x: int)
    ensures IsDecimalLexeme(Itoa(x))
    ensures |Itoa(x)| > 0 && IsDigit(Itoa(x)[|Itoa(x)| - 1])
  {
    var t := Itoa(x);
    if x < 0 {
      assert t[1..] == NatText(-x);
      assert SignLen(t) == 1;
    } else {
      assert SignLen(t) == 0 && t[0..] == t;
    }
  }

  /**
   * A suffixed integer token as the serializer writes it is read back as
   * the number when it is in the parser's range and refused otherwise,
   * leaving whatever follows the letter.
   */
  lemma SuffixedIntOfItoa(x: int, letter: char, letters: string, lo: int, hi: int, rest: string)
    requires letter in letters && !IsDigit(letter)
    ensures SuffixedInt(Itoa(x) + [letter] + rest, letters, lo, hi) == if lo <= x <= hi then Ok(rest, x) else Error
  {
    var t := Itoa(x);
    var after := [letter] + rest;
    ItoaIsDecimalLexeme(x);
    assert t + [letter] + rest == t + after;
    DecimalTakesLexeme(t, after);
    ParseSignedItoa(x, lo, hi);
    assert after[1..] == rest;
  }

  /** `i8` written as digits and `b` reads back through `parse_i8`. */
  lemma I8RoundTrip(x: i8, d: Option<nat>, rest: string)
    ensures ParseI8(Emit(I8(x), d).text + rest) == Ok(rest, x)
  {
    var s := Emit(I8(x), d).text + rest;
    assert s == Itoa(x as int) + ['b'] + rest;
    SuffixedIntOfItoa(x as int, 'b', "bB", -0x80, 0x7f, rest);
    assert SuffixedInt(s, "bB", -0x80, 0x7f) == if -0x80 <= x as int <= 0x7f then Ok(rest, x as int) else Error;
  }

  /** `i16` written as digits and `s` reads back through `parse_i16`. */
  lemma I16RoundTrip(x: i16, d: Option<nat>, rest: string)
    ensures ParseI16(Emit(I16(x), d).text + rest) == Ok(rest, x)
  {
    var s := Emit(I16(x), d).text + rest;
    assert s == Itoa(x as int) + ['s'] + rest;
    SuffixedIntOfItoa(x as int, 's', "sS", -0x8000, 0x7fff, rest);
    assert SuffixedInt(s, "sS", -0x8000, 0x7fff) == if -0x8000 <= x as int <= 0x7fff then Ok(rest, x as int) else Error;
  }

  /** `i64` written as digits and `l` reads back through `parse_i64`. */
  lemma I64RoundTrip(x: i64, d: Option<nat>, rest: string)
    ensures ParseI64(Emit(I64(x), d).text + rest) == Ok(rest, x)
  {
    var s := Emit(I64(x), d).text + rest;
    assert s == Itoa(x as int) + ['l'] + rest;
    SuffixedIntOfItoa(x as int, 'l', "lL", -0x8000_0000_0000_0000, 0x7fff_ffff_ffff_ffff, rest);
    assert SuffixedInt(s, "lL", -0x8000_0000_0000_0000, 0x7fff_ffff_ffff_ffff) == if -0x8000_0000_0000_0000 <= x as int <= 0x7fff_ffff_ffff_ffff then Ok(rest, x as int) else Error;
  }

  /**
   * `i32` has no letter, so the round trip needs the next character not to
   * be a digit (a following digit would be read as part of the number).
   */
  lemma I32RoundTrip(x: i32, d: Option<nat>, rest: string)
    requires rest == [] || !IsDigit(rest[0])
    ensures ParseI32(Emit(I32(x), d).text + rest) == Ok(rest, x)
  {
    assert Emit(I32(x), d).text + rest == Itoa(x as int) + rest;
    ItoaIsDecimalLexeme(x as int);
    DecimalTakesLexeme(Itoa(x as int), rest);
    ParseSignedItoa(x as int, -0x8000_0000, 0x7fff_ffff);
  }

  /**
   * Unsigned values share the signed letters but not the signed ranges:
   * `u8` reads back through `parse_i8` only below 128, so `255b` is refused.
   */
  lemma U8ReadBack(x: u8, d: Option<nat>, rest: string)
    ensures ParseI8(Emit(U8(x), d).text + rest) == if x < 0x80 then Ok(rest, x as int as i8) else Error
  {
    var s := Emit(U8(x), d).text + rest;
    assert s == Itoa(x as int) + ['b'] + rest;
    SuffixedIntOfItoa(x as int, 'b', "bB", -0x80, 0x7f, rest);
    assert SuffixedInt(s, "bB", -0x80, 0x7f) == if -0x80 <= x as int <= 0x7f then Ok(rest, x as int) else Error;
  }

  /** `u16` reads back through `parse_i16` only below 2^15. */
  lemma U16ReadBack(x: u16, d: Option<nat>, rest: string)
    ensures ParseI16(Emit(U16(x), d).text + rest) == if x < 0x8000 then Ok(rest, x as int as i16) else Error
  {
    var s := Emit(U16(x), d).text + rest;
    assert s == Itoa(x as int) + ['s'] + rest;
    SuffixedIntOfItoa(x as int, 's', "sS", -0x8000, 0x7fff, rest);
    assert SuffixedInt(s, "sS", -0x8000, 0x7fff) == if -0x8000 <= x as int <= 0x7fff then Ok(rest, x as int) else Error;
  }

  /** `u32` reads back through `parse_i32` only below 2^31. */
  lemma U32ReadBack(x: u32, d: Option<nat>, rest: string)
    requires rest == [] || !IsDigit(rest[0])
    ensures ParseI32(Emit(U32(x), d).text + rest) == if x < 0x8000_0000 then Ok(rest, x as int as i32) else Error
  {
    var t := Itoa(x as int);
    assert Emit(U32(x), d).text + rest == t + rest;
    ItoaIsDecimalLexeme(x as int);
    DecimalTakesLexeme(t, rest);
    ParseSignedItoa(x as int, -0x8000_0000, 0x7fff_ffff);
  }

  /** `u64` reads back through `parse_i64` only below 2^63. */
  lemma U64ReadBack(x: u64, d: Option<nat>, rest: string)
    ensures ParseI64(Emit(U64(x), d).text + rest) == if x < 0x8000_0000_0000_0000 then Ok(rest, x as int as i64) else Error
  {
    var s := Emit(U64(x), d).text + rest;
    assert s == Itoa(x as int) + ['l'] + rest;
    SuffixedIntOfItoa(x as int, 'l', "lL", -0x8000_0000_0000_0000, 0x7fff_ffff_ffff_ffff, rest);
    assert SuffixedInt(s, "lL", -0x8000_0000_0000_0000, 0x7fff_ffff_ffff_ffff) == if -0x8000_0000_0000_0000 <= x as int <= 0x7fff_ffff_ffff_ffff then Ok(rest, x as int) else Error;
  }

  /** Concretely: `u8` 255 is written as `255b`, which `parse_i8` refuses. */
  lemma U8MaxRefused()
    ensures Emit(U8(255), None).text == "255b"
    ensures ParseI8("255b") == Error
  {
    assert NatText(255) == "255" by {
      assert NatText(25) == "25" by {
        assert NatText(2) == "2";
      }
    }
    U8ReadBack(255, None, "");
    assert Emit(U8(255), None).text + "" == "255b";
  }
}
