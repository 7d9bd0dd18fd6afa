/**
  The two string operations the program applies to every line it reads:
  Rust's `str::trim` and `str::parse` into an unsigned integer type.
  A line is a `string`, that is, a sequence of Unicode scalar values.
 */
module Text {
  import opened Wrappers

  /**
    Rust's `char::is_whitespace`: the Unicode `White_Space` property.
   */
  predicate IsWhitespace(c: char)
  {
    || '\t' <= c <= '\r'            // tab, line feed, vertical tab, form feed, carriage return
    || c == ' '
    || c == '\U{0085}'              // next line
    || c == '\U{00A0}'              // no-break space
    || c == '\U{1680}'              // ogham space mark
    || '\U{2000}' <= c <= '\U{200A}' // en quad .. hair space
    || c == '\U{2028}'              // line separator
    || c == '\U{2029}'              // paragraph separator
    || c == '\U{202F}'              // narrow no-break space
    || c == '\U{205F}'              // medium mathematical space
    || c == '\U{3000}'              // ideographic space
  }

  /** No digit and no sign is whitespace, so trimming never removes part of a number. */
  lemma WhitespaceIsNotNumeric(c: char)
    ensures IsWhitespace(c) ==> !IsDigit(c) && c != '+' && c != '-'
  {
  }

  predicate AllWhitespace(s: string)
  {
    forall i :: 0 <= i < |s| ==> IsWhitespace(s[i])
  }

  /** Removes the leading whitespace: the result is a suffix of `s` that does not start with whitespace. */
  function TrimStart(s: string): (r: string)
    ensures |r| <= |s| && r == s[|s| - |r|..]
    ensures AllWhitespace(s[..|s| - |r|])
    ensures r == [] || !IsWhitespace(r[0])
  {
    if |s| > 0 && IsWhitespace(s[0]) then
      var r := TrimStart(s[1..]);
      TrimStartStep(s, r);
      r
    else s
  }

  lemma TrimStartStep(s: string, r: string)
    requires |s| > 0 && IsWhitespace(s[0])
    requires |r| <= |s| - 1 && r == s[1..][|s| - 1 - |r|..] && AllWhitespace(s[1..][..|s| - 1 - |r|])
    ensures r == s[|s| - |r|..] && AllWhitespace(s[..|s| - |r|])
  {
    var k := |s| - |r|;
    assert s[..k] == [s[0]] + s[1..][..k - 1];
    forall i | 0 <= i < k ensures IsWhitespace(s[..k][i]) {
      if i > 0 {
        assert s[..k][i] == s[1..][..k - 1][i - 1];
      }
    }
  }

  /** Removes the trailing whitespace: the result is a prefix of `s` that does not end with whitespace. */
  function TrimEnd(s: string): (r: string)
    ensures |r| <= |s| && r == s[..|r|]
    ensures AllWhitespace(s[|r|..])
    ensures r == [] || !IsWhitespace(r[|r| - 1])
  {
    if |s| > 0 && IsWhitespace(s[|s| - 1]) then
      var r := TrimEnd(s[..|s| - 1]);
      assert s[..|r|] == s[..|s| - 1][..|r|];
      assert s[|r|..] == s[..|s| - 1][|r|..] + [s[|s| - 1]];
      r
    else s
  }

  /**
    Rust's `str::trim`: the result neither starts nor ends with whitespace, and
    it is empty exactly when the whole text is whitespace.
   */
  function Trim(s: string): (r: string)
    ensures |r| <= |s|
    ensures r == [] || (!IsWhitespace(r[0]) && !IsWhitespace(r[|r| - 1]))
    ensures r == [] <==> AllWhitespace(s)
  {
    var t := TrimStart(s);
    var r := TrimEnd(t);
    TrimStartEmpty(s, t);
    TrimEndEmpty(t, r);
    r
  }

  lemma TrimStartEmpty(s: string, t: string)
    requires |t| <= |s| && t == s[|s| - |t|..] && AllWhitespace(s[..|s| - |t|])
    requires t == [] || !IsWhitespace(t[0])
    ensures t == [] <==> AllWhitespace(s)
  {
    if t == [] {
      assert s == s[..|s| - |t|];
    } else {
      assert s[|s| - |t|] == t[0];
    }
  }

  lemma TrimEndEmpty(t: string, r: string)
    requires |r| <= |t| && r == t[..|r|] && AllWhitespace(t[|r|..])
    requires r == [] || !IsWhitespace(r[|r| - 1])
    requires t == [] || !IsWhitespace(t[0])
    ensures r == [] <==> t == []
  {
  }

  /** `Trim(s)` is the slice `s[a..b]` that is left once all whitespace is removed from both ends. */
  lemma TrimIsInnerSlice(s: string)
    ensures exists a, b :: 0 <= a <= b <= |s| && Trim(s) == s[a..b]
                          && AllWhitespace(s[..a]) && AllWhitespace(s[b..])
    ensures Trim(s) == [] || (!IsWhitespace(Trim(s)[0]) && !IsWhitespace(Trim(s)[|Trim(s)| - 1]))
  {
    var t := TrimStart(s);
    var a := |s| - |t|;
    var b := a + |TrimEnd(t)|;
    assert s[a..b] == t[..|TrimEnd(t)|];
    assert s[b..] == t[|TrimEnd(t)|..];
    assert Trim(s) == s[a..b] && AllWhitespace(s[..a]) && AllWhitespace(s[b..]);
  }

  /** Trimming twice is trimming once. */
  lemma TrimIdempotent(s: string)
    ensures Trim(Trim(s)) == Trim(s)
  {
    var t := Trim(s);
    TrimIsInnerSlice(s);
    if t != [] {
      assert TrimStart(t) == t;
      assert TrimEnd(t) == t;
    }
  }

  /** Whitespace added around a text that does not start or end with whitespace is removed again. */
  lemma {:induction false} TrimPadded(pre: string, t: string, post: string)
    requires AllWhitespace(pre) && AllWhitespace(post)
    requires t == [] || (!IsWhitespace(t[0]) && !IsWhitespace(t[|t| - 1]))
    ensures Trim(pre + t + post) == t
  {
    if t == [] {
      assert pre + t + post == (pre + post) + [];
      assert AllWhitespace(pre + post);
      TrimStartPadded(pre + post, []);
    } else {
      assert pre + t + post == pre + (t + post);
      TrimStartPadded(pre, t + post);
      TrimEndPadded(t, post);
    }
  }

  lemma {:induction false} TrimStartPadded(pre: string, rest: string)
    requires AllWhitespace(pre)
    requires rest == [] || !IsWhitespace(rest[0])
    ensures TrimStart(pre + rest) == rest
  {
    if pre != [] {
      assert (pre + rest)[1..] == pre[1..] + rest;
      TrimStartPadded(pre[1..], rest);
    }
  }

  lemma {:induction false} TrimEndPadded(rest: string, post: string)
    requires AllWhitespace(post)
    requires rest == [] || !IsWhitespace(rest[|rest| - 1])
    ensures TrimEnd(rest + post) == rest
  {
    if post != [] {
      assert (rest + post)[..|rest + post| - 1] == rest + post[..|post| - 1];
      TrimEndPadded(rest, post[..|post| - 1]);
    } else {
      assert rest + post == rest;
    }
  }

  predicate IsDigit(c: char)
  {
    '0' <= c <= '9'
  }

  predicate AllDigits(s: string)
  {
    forall i :: 0 <= i < |s| ==> IsDigit(s[i])
  }

  function DigitValue(c: char): (d: nat)
    requires IsDigit(c)
    ensures d < 10
  {
    c as int - '0' as int
  }

  function DigitChar(d: nat): (c: char)
    requires d < 10
    ensures IsDigit(c) && DigitValue(c) == d
  {
    ('0' as int + d) as char
  }

  /** The number written by a string of decimal digits, most significant first. */
  function DigitsValue(s: string): nat
    requires AllDigits(s)
  {
    if s == [] then 0 else 10 * DigitsValue(s[..|s| - 1]) + DigitValue(s[|s| - 1])
  }

  predicate AllZeros(z: string)
  {
    forall i :: 0 <= i < |z| ==> z[i] == '0'
  }

  /**
    `s` writes `n` in the form `parse` accepts: an optional `+`, any number of
    leading zeros, then the decimal text of `n`.
   */
  ghost predicate SpellsNumber(s: string, n: nat)
  {
    exists z :: AllZeros(z) && (s == z + DecimalText(n) || s == "+" + z + DecimalText(n))
  }

  /**
    `s.parse::<T>()` for an unsigned integer type `T` whose largest value is `max`:
    an optional `+`, then at least one ASCII digit and nothing else, and a value
    that fits in `T`. A `-` is never accepted for an unsigned type.
   */
  function ParseUnsigned(s: string, max: nat): (r: Option<nat>)
    ensures r.Some? ==> r.value <= max && SpellsNumber(s, r.value)
    ensures s == [] || s == "+" ==> r == None
    ensures (exists i :: 0 <= i < |s| && !IsDigit(s[i]) && !(i == 0 && s[i] == '+')) ==> r == None
  {
    var digits := if |s| > 0 && s[0] == '+' then s[1..] else s;
    if digits == [] || !AllDigits(digits) then None
    else if DigitsValue(digits) <= max then
      DigitsSpellTheirValue(s, digits);
      Some(DigitsValue(digits))
    else None
  }

  /** The decimal text Rust's `Display` prints for `n`: no sign, no leading zeros. */
  function DecimalText(n: nat): (s: string)
    ensures s != [] && AllDigits(s)
    ensures s[0] != '0' || s == "0"
  {
    if n < 10 then [DigitChar(n)] else DecimalText(n / 10) + [DigitChar(n % 10)]
  }

  /** The digits of a number's decimal text denote that number. */
  lemma {:induction false} DecimalTextValue(n: nat)
    ensures DigitsValue(DecimalText(n)) == n
  {
    if n >= 10 {
      var s := DecimalText(n);
      assert s[..|s| - 1] == DecimalText(n / 10);
      DecimalTextValue(n / 10);
    }
  }

  /** Digits without a leading zero are the decimal text of their value. */
  lemma {:induction false} CanonicalDigits(d: string)
    requires d != [] && AllDigits(d) && d[0] != '0'
    ensures DigitsValue(d) >= 1 && DecimalText(DigitsValue(d)) == d
  {
    if |d| > 1 {
      var init := d[..|d| - 1];
      CanonicalDigits(init);
      var v := DigitsValue(d);
      assert v / 10 == DigitsValue(init) && v % 10 == DigitValue(d[|d| - 1]);
      assert d == init + [DigitChar(v % 10)];
    }
  }

  /** Leading zeros add nothing to the value of a digit string. */
  lemma {:induction false} LeadingZerosValue(z: string, t: string)
    requires AllZeros(z) && AllDigits(t)
    ensures AllDigits(z + t) && DigitsValue(z + t) == DigitsValue(t)
    decreases |t|
  {
    if t == [] {
      assert z + t == z;
      ZerosValue(z);
    } else {
      assert (z + t)[..|z + t| - 1] == z + t[..|t| - 1];
      LeadingZerosValue(z, t[..|t| - 1]);
    }
  }

  lemma {:induction false} ZerosValue(z: string)
    requires AllZeros(z)
    ensures AllDigits(z) && DigitsValue(z) == 0
  {
    if z != [] {
      ZerosValue(z[..|z| - 1]);
    }
  }

  /** Every non-empty digit string is some leading zeros followed by the decimal text of its value. */
  lemma {:induction false} SplitLeadingZeros(d: string)
    requires d != [] && AllDigits(d)
    ensures exists z :: AllZeros(z) && d == z + DecimalText(DigitsValue(d))
    decreases |d|
  {
    if d[0] != '0' {
      CanonicalDigits(d);
      assert AllZeros([]) && d == [] + DecimalText(DigitsValue(d));
    } else if |d| == 1 {
      assert d == "0" && DigitsValue(d) == 10 * DigitsValue([]) + 0;
      assert AllZeros([]) && d == [] + DecimalText(0);
    } else {
      SplitLeadingZeros(d[1..]);
      var z :| AllZeros(z) && d[1..] == z + DecimalText(DigitsValue(d[1..]));
      ShiftLeadingZero(d, z);
    }
  }

  /** One more leading zero in front of a split digit string. */
  lemma ShiftLeadingZero(d: string, z: string)
    requires |d| > 1 && d[0] == '0' && AllDigits(d)
    requires AllZeros(z) && d[1..] == z + DecimalText(DigitsValue(d[1..]))
    ensures AllZeros("0" + z) && d == ("0" + z) + DecimalText(DigitsValue(d))
  {
    SameValueAfterZero(d);
    ConsZero(z);
    ConsZeroSplit(d, z, DecimalText(DigitsValue(d[1..])));
  }

  lemma ConsZeroSplit(d: string, z: string, t: string)
    requires |d| > 0 && d[0] == '0' && d[1..] == z + t
    ensures d == ("0" + z) + t
  {
    assert d == [d[0]] + d[1..];
  }

  lemma SameValueAfterZero(d: string)
    requires |d| > 1 && d[0] == '0' && AllDigits(d)
    ensures AllDigits(d[1..]) && DigitsValue(d) == DigitsValue(d[1..])
  {
    assert d == "0" + d[1..];
    LeadingZerosValue("0", d[1..]);
  }

  lemma ConsZero(z: string)
    requires AllZeros(z)
    ensures AllZeros("0" + z)
  {
    assert forall i :: 0 < i < |"0" + z| ==> ("0" + z)[i] == z[i - 1];
  }

  lemma DigitsSpellTheirValue(s: string, digits: string)
    requires digits == (if |s| > 0 && s[0] == '+' then s[1..] else s)
    requires digits != [] && AllDigits(digits)
    ensures SpellsNumber(s, DigitsValue(digits))
  {
    SplitLeadingZeros(digits);
    var z :| AllZeros(z) && digits == z + DecimalText(DigitsValue(digits));
    if |s| > 0 && s[0] == '+' {
      assert s == "+" + z + DecimalText(DigitsValue(digits));
    } else {
      assert s == z + DecimalText(DigitsValue(digits));
    }
  }

  /** Digits alone, or after a `+`, parse to their value when it fits. */
  lemma ParseDigits(d: string, max: nat)
    requires d != [] && AllDigits(d)
    ensures ParseUnsigned(d, max) == (if DigitsValue(d) <= max then Some(DigitsValue(d)) else None)
    ensures ParseUnsigned("+" + d, max) == ParseUnsigned(d, max)
  {
    assert d[0] != '+';
    assert ("+" + d)[1..] == d;
  }

  /**
    Parsing accepts leading zeros and a leading `+`: any such spelling of a
    value that fits gives that value back, and any other value is rejected.
   */
  lemma ParseWithLeadingZeros(z: string, n: nat, max: nat)
    requires AllZeros(z)
    ensures ParseUnsigned(z + DecimalText(n), max) == (if n <= max then Some(n) else None)
    ensures ParseUnsigned("+" + z + DecimalText(n), max) == (if n <= max then Some(n) else None)
  {
    var d := z + DecimalText(n);
    DecimalTextValue(n);
    LeadingZerosValue(z, DecimalText(n));
    ParseDigits(d, max);
    assert "+" + z + DecimalText(n) == "+" + d;
  }

  /** A parse succeeds with value `n` exactly when the text spells `n` and `n` fits. */
  lemma ParseUnsignedMeans(s: string, max: nat, n: nat)
    ensures ParseUnsigned(s, max) == Some(n) <==> SpellsNumber(s, n) && n <= max
  {
    if SpellsNumber(s, n) {
      var z :| AllZeros(z) && (s == z + DecimalText(n) || s == "+" + z + DecimalText(n));
      ParseWithLeadingZeros(z, n, max);
    }
  }

  /** Parsing the decimal text of any value that fits gives that value back; a `+` in front changes nothing. */
  lemma ParseDecimalText(n: nat, max: nat)
    ensures ParseUnsigned(DecimalText(n), max) == (if n <= max then Some(n) else None)
    ensures ParseUnsigned("+" + DecimalText(n), max) == (if n <= max then Some(n) else None)
  {
    DecimalTextValue(n);
    ParseDigits(DecimalText(n), max);
  }

  /**
    A number as typed, an optional `+` and leading zeros before its decimal
    text, with whitespace around it: trimming gives the number's text back,
    and that text spells the number.
   */
  lemma TrimNumeral(pre: string, sign: string, z: string, n: nat, post: string)
    requires AllWhitespace(pre) && AllWhitespace(post)
    requires (sign == "" || sign == "+") && AllZeros(z)
    ensures Trim(pre + (sign + z + DecimalText(n)) + post) == sign + z + DecimalText(n)
    ensures SpellsNumber(sign + z + DecimalText(n), n)
  {
    NumeralEnds(sign, z, DecimalText(n));
    TrimPadded(pre, sign + z + DecimalText(n), post);
    NumeralSpells(sign, z, n);
  }

  lemma NumeralEnds(sign: string, z: string, d: string)
    requires (sign == "" || sign == "+") && AllZeros(z) && d != [] && AllDigits(d)
    ensures var t := sign + z + d;
            !IsWhitespace(t[0]) && !IsWhitespace(t[|t| - 1])
  {
    var t := sign + z + d;
    assert t[|t| - 1] == d[|d| - 1];
    assert t[0] == '+' || t[0] == '0' || t[0] == d[0];
    WhitespaceIsNotNumeric(t[0]);
    WhitespaceIsNotNumeric(t[|t| - 1]);
  }

  lemma NumeralSpells(sign: string, z: string, n: nat)
    requires (sign == "" || sign == "+") && AllZeros(z)
    ensures SpellsNumber(sign + z + DecimalText(n), n)
  {
    if sign == "" {
      assert sign + z + DecimalText(n) == z + DecimalText(n);
    }
  }

  /** A number as typed, an optional `+` and leading zeros before its decimal text, parses to that number when it fits. */
  lemma ParseNumeral(sign: string, z: string, n: nat, max: nat)
    requires (sign == "" || sign == "+") && AllZeros(z)
    ensures ParseUnsigned(sign + z + DecimalText(n), max) == (if n <= max then Some(n) else None)
  {
    ParseWithLeadingZeros(z, n, max);
    SignedText(sign, z, DecimalText(n));
  }

  lemma SignedText(sign: string, z: string, d: string)
    requires sign == "" || sign == "+"
    ensures sign + z + d == (if sign == "" then z + d else "+" + z + d)
  {
    if sign == "" {
      assert sign + z + d == z + d;
    }
  }
}
