/**
 * Rust's unsigned `from_str_radix` (and `str::parse` for unsigned integers,
 * which is radix 10): an optional '+' sign, then digits accumulated left to
 * right with checked multiplication and addition.
 */
module IntParse {
  import opened Wrappers
  import opened Bytes

  /** The kind of a ParseIntError. */
  datatype IntErrorKind = Empty | InvalidDigit | PosOverflow

  function Pow2(n: nat): (p: nat)
    ensures p >= 1
  {
    if n == 0 then 1 else 2 * Pow2(n - 1)
  }

  /** `char::to_digit`: 0-9, then a-z or A-Z for 10-35, when below the radix. */
  function DigitValue(c: char, radix: nat): (d: Option<nat>)
    requires 2 <= radix <= 36
    ensures d.Some? ==> d.value < radix
  {
    var v :=
      if '0' <= c <= '9' then c as int - '0' as int
      else if 'a' <= c <= 'z' then c as int - 'a' as int + 10
      else if 'A' <= c <= 'Z' then c as int - 'A' as int + 10
      else 36;
    if v < radix then Some(v) else None
  }

  /** The upper-case digit character for `d` (as `{:X}` and `{}` print digits). */
  function DigitChar(d: nat): (c: char)
    requires d < 36
    ensures forall radix :: 2 <= radix && d < radix <= 36 ==> DigitValue(c, radix) == Some(d)
  {
    if d < 10 then ('0' as int + d) as char else ('A' as int + d - 10) as char
  }

  /** Digits are ASCII letters or decimal digits. */
  lemma DigitIsAscii(c: char, radix: nat)
    requires 2 <= radix <= 36 && DigitValue(c, radix).Some?
    ensures c as int < 128
    ensures ('0' <= c <= '9') || ('a' <= c <= 'z') || ('A' <= c <= 'Z')
  {
  }

  predicate AllDigits(s: string, radix: nat)
    requires 2 <= radix <= 36
  {
    forall i :: 0 <= i < |s| ==> DigitValue(s[i], radix).Some?
  }

  /** The positional value of the digit string `s` after the prefix value `acc`. */
  function ValueFrom(acc: nat, s: string, radix: nat): (v: nat)
    requires 2 <= radix <= 36 && AllDigits(s, radix)
    ensures v >= acc
    decreases |s|
  {
    if s == [] then acc
    else
      var next := acc * radix + DigitValue(s[0], radix).value;
      MulAtLeast(acc, radix);
      ValueFrom(next, s[1..], radix)
  }

  /** The digit loop: reject a non-digit, fail as soon as the accumulator reaches `limit`. */
  function Accumulate(acc: nat, s: string, radix: nat, limit: nat): Result<nat, IntErrorKind>
    requires 2 <= radix <= 36
    decreases |s|
  {
    if s == [] then Ok(acc)
    else match DigitValue(s[0], radix)
      case None => Err(InvalidDigit)
      case Some(d) =>
        if acc * radix + d >= limit then Err(PosOverflow)
        else Accumulate(acc * radix + d, s[1..], radix, limit)
  }

  /** The digits after an optional leading '+'. */
  function Unsigned(s: string): string {
    if |s| > 0 && s[0] == '+' then s[1..] else s
  }

  /**
   * `from_str_radix` for an unsigned type of `bits` bits: empty input is Empty,
   * a sign with nothing after it is InvalidDigit, otherwise the digit loop.
   */
  function FromStrRadix(s: string, radix: nat, bits: nat): Result<nat, IntErrorKind>
    requires 2 <= radix <= 36
  {
    if s == [] then Err(Empty)
    else if s == "+" || s == "-" then Err(InvalidDigit)
    else Accumulate(0, Unsigned(s), radix, Pow2(bits))
  }

  /** The digit loop computes the positional value, or overflows exactly when it reaches the limit. */
  lemma {:induction false} AccumulateValue(acc: nat, s: string, radix: nat, limit: nat)
    requires 2 <= radix <= 36 && AllDigits(s, radix) && acc < limit
    ensures Accumulate(acc, s, radix, limit) ==
              if ValueFrom(acc, s, radix) < limit then Ok(ValueFrom(acc, s, radix)) else Err(PosOverflow)
    decreases |s|
  {
    if s != [] {
      AllDigitsTail(s, radix);
      var d := DigitValue(s[0], radix).value;
      if acc * radix + d < limit {
        AccumulateValue(acc * radix + d, s[1..], radix, limit);
      }
    }
  }

  /** A string with a character that is not a digit never parses. */
  lemma {:induction false} AccumulateRejects(acc: nat, s: string, radix: nat, limit: nat)
    requires 2 <= radix <= 36 && !AllDigits(s, radix)
    ensures Accumulate(acc, s, radix, limit).Err?
    decreases |s|
  {
    if DigitValue(s[0], radix).Some? {
      var d := DigitValue(s[0], radix).value;
      if acc * radix + d < limit {
        assert !AllDigits(s[1..], radix) by {
          var i :| 0 <= i < |s| && DigitValue(s[i], radix).None?;
          assert i > 0 && s[1..][i - 1] == s[i];
        }
        AccumulateRejects(acc * radix + d, s[1..], radix, limit);
      }
    }
  }

  /**
   * What `from_str_radix` accepts: after an optional '+', a non-empty string of
   * digits of the radix whose value fits in `bits` bits; the result is that value.
   */
  lemma FromStrRadixSpec(s: string, radix: nat, bits: nat)
    requires 2 <= radix <= 36
    ensures var d := Unsigned(s);
            var r := FromStrRadix(s, radix, bits);
            && (r.Ok? <==> |d| > 0 && AllDigits(d, radix) && ValueFrom(0, d, radix) < Pow2(bits))
            && (r.Ok? ==> r.value == ValueFrom(0, d, radix))
            && (s == [] ==> r == Err(Empty))
  {
    var d := Unsigned(s);
    if s != [] && s != "+" && s != "-" {
      if AllDigits(d, radix) {
        AccumulateValue(0, d, radix, Pow2(bits));
      } else {
        AccumulateRejects(0, d, radix, Pow2(bits));
      }
    } else if s == "-" {
      assert !AllDigits(d, radix) by {
        assert d[0] == '-';
      }
    }
  }

  /** The `n`-digit rendering of `v` in `radix`, most significant digit first, zero-padded. */
  function Digits(v: nat, n: nat, radix: nat): (s: string)
    requires 2 <= radix <= 36
    ensures |s| == n && AllDigits(s, radix)
    decreases n
  {
    if n == 0 then [] else Digits(v / radix, n - 1, radix) + [DigitChar(v % radix)]
  }

  function Pow(radix: nat, n: nat): (p: nat)
    ensures radix >= 1 ==> p >= 1
  {
    if n == 0 then 1 else radix * Pow(radix, n - 1)
  }

  /** The digits after the first of a digit string are digits. */
  lemma AllDigitsTail(s: string, radix: nat)
    requires 2 <= radix <= 36 && AllDigits(s, radix) && s != []
    ensures DigitValue(s[0], radix).Some? && AllDigits(s[1..], radix)
  {
    forall i | 0 <= i < |s[1..]| ensures DigitValue(s[1..][i], radix).Some? {
      assert s[1..][i] == s[i + 1];
    }
  }

  /** A digit string with one more digit is a digit string. */
  lemma AllDigitsSnoc(s: string, c: char, radix: nat)
    requires 2 <= radix <= 36 && AllDigits(s, radix) && DigitValue(c, radix).Some?
    ensures AllDigits(s + [c], radix)
  {
    forall i | 0 <= i < |s + [c]| ensures DigitValue((s + [c])[i], radix).Some? {
      if i < |s| {
        assert (s + [c])[i] == s[i];
      }
    }
  }

  /** Appending one digit multiplies by the radix and adds the digit. */
  lemma {:induction false} ValueFromSnoc(acc: nat, s: string, c: char, radix: nat)
    requires 2 <= radix <= 36 && AllDigits(s, radix) && DigitValue(c, radix).Some?
    ensures AllDigits(s + [c], radix)
    ensures ValueFrom(acc, s + [c], radix) == ValueFrom(acc, s, radix) * radix + DigitValue(c, radix).value
    decreases |s|
  {
    AllDigitsSnoc(s, c, radix);
    if s == [] {
      assert (s + [c])[1..] == [];
    } else {
      AllDigitsTail(s, radix);
      var next := acc * radix + DigitValue(s[0], radix).value;
      ValueFromSnoc(next, s[1..], c, radix);
      assert (s + [c])[0] == s[0] && (s + [c])[1..] == s[1..] + [c];
    }
  }

  /** A rendering reads back as its value when the rendering without its last digit reads back as the quotient. */
  lemma DigitsLast(v: nat, n: nat, radix: nat)
    requires 2 <= radix <= 36 && n >= 1
    requires ValueFrom(0, Digits(v / radix, n - 1, radix), radix) == v / radix
    ensures ValueFrom(0, Digits(v, n, radix), radix) == v
  {
    var t := Digits(v / radix, n - 1, radix);
    var c := DigitChar(v % radix);
    ValueFromSnoc(0, t, c, radix);
    assert DigitValue(c, radix) == Some(v % radix);
    DivMod(v, radix);
  }

  /** Dropping the last digit leaves a value that fits in one digit fewer. */
  lemma QuotientFits(v: nat, n: nat, radix: nat)
    requires 2 <= radix <= 36 && n >= 1 && v < Pow(radix, n)
    ensures 0 <= v / radix < Pow(radix, n - 1)
  {
    DivBound(v, radix, Pow(radix, n - 1));
  }

  /** Reading back an `n`-digit rendering gives the value, when it fits in `n` digits. */
  lemma {:induction false} ValueOfDigits(v: nat, n: nat, radix: nat)
    requires 2 <= radix <= 36 && v < Pow(radix, n)
    ensures ValueFrom(0, Digits(v, n, radix), radix) == v
    decreases n
  {
    if n > 0 {
      QuotientFits(v, n, radix);
      ValueOfDigits(v / radix, n - 1, radix);
      DigitsLast(v, n, radix);
    }
  }

  /** Dropping the last digit of a rendering reads back as the value divided by the radix. */
  lemma DigitsPrefix(v: nat, n: nat, radix: nat)
    requires 2 <= radix <= 36 && n >= 1
    ensures Digits(v, n, radix)[..n - 1] == Digits(v / radix, n - 1, radix)
  {
  }

  /** `from_str_radix` reads back a rendering whose value fits the integer type. */
  lemma FromStrRadixOfDigits(v: nat, n: nat, radix: nat, bits: nat)
    requires 2 <= radix <= 36 && n >= 1 && v < Pow(radix, n) && v < Pow2(bits)
    ensures FromStrRadix(Digits(v, n, radix), radix, bits) == Ok(v)
  {
    var s := Digits(v, n, radix);
    ValueOfDigits(v, n, radix);
    assert s[0] != '+' && s[0] != '-' by {
      assert DigitValue(s[0], radix).Some?;
    }
    AccumulateValue(0, s, radix, Pow2(bits));
  }
}
