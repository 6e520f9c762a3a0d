/**
 * The devmem command line: the number parser for addresses and values, and
 * the width argument parser and printer.
 */
module DevMemCli {
  import opened Wrappers
  import opened IntParse
  import opened DevMem

  /** The two messages parse_number produces, each carrying the integer parse error. */
  datatype NumberError = InvalidHexNumber(kind: IntErrorKind) | InvalidNumber(kind: IntErrorKind)

  /** True when `s` begins with "0x" or "0X". */
  predicate HasHexPrefix(s: string) {
    |s| >= 2 && s[0] == '0' && (s[1] == 'x' || s[1] == 'X')
  }

  /** A "0x"/"0X" prefix selects a hexadecimal u64 for the rest; anything else is a decimal u64. */
  function ParseNumber(s: string): (r: Result<nat, NumberError>)
    ensures r.Ok? ==> r.value < Pow2(64)
    ensures r.Err? ==> r.error.InvalidHexNumber? == HasHexPrefix(s)
  {
    if HasHexPrefix(s) then
      FromStrRadixSpec(s[2..], 16, 64);
      MapErr(FromStrRadix(s[2..], 16, 64), true)
    else
      FromStrRadixSpec(s, 10, 64);
      MapErr(FromStrRadix(s, 10, 64), false)
  }

  /** Wraps an integer parse error in the hexadecimal or the decimal message. */
  function MapErr(r: Result<nat, IntErrorKind>, hex: bool): (r': Result<nat, NumberError>)
    ensures r'.Ok? <==> r.Ok?
    ensures r'.Ok? ==> r'.value == r.value
    ensures r'.Err? ==> r'.error == (if hex then InvalidHexNumber(r.error) else InvalidNumber(r.error))
  {
    match r
    case Ok(v) => Ok(v)
    case Err(e) => if hex then Err(InvalidHexNumber(e)) else Err(InvalidNumber(e))
  }

  /**
   * What parse_number accepts: after the prefix (if any) and an optional '+',
   * a non-empty digit string of the chosen radix whose value fits in 64 bits.
   */
  lemma ParseNumberSpec(s: string)
    ensures var hex := HasHexPrefix(s);
            var radix := if hex then 16 else 10;
            var d := Unsigned(if hex then s[2..] else s);
            && (ParseNumber(s).Ok? <==> |d| > 0 && AllDigits(d, radix) && ValueFrom(0, d, radix) < Pow2(64))
            && (ParseNumber(s).Ok? ==> ParseNumber(s).value == ValueFrom(0, d, radix))
            && (s == [] ==> ParseNumber(s) == Err(InvalidNumber(Empty)))
            && (s == "0x" ==> ParseNumber(s) == Err(InvalidHexNumber(Empty)))
  {
    if HasHexPrefix(s) {
      FromStrRadixSpec(s[2..], 16, 64);
    } else {
      FromStrRadixSpec(s, 10, 64);
    }
  }

  /** "0x" followed by the hexadecimal digits of a u64 parses back to it. */
  lemma ParseHexRoundTrip(v: nat, n: nat)
    requires n >= 1 && v < Pow(16, n) && v < Pow2(64)
    ensures ParseNumber("0x" + Digits(v, n, 16)) == Ok(v)
  {
    var s := "0x" + Digits(v, n, 16);
    assert s[2..] == Digits(v, n, 16);
    FromStrRadixOfDigits(v, n, 16, 64);
  }

  /** The decimal digits of a u64 parse back to it. */
  lemma ParseDecimalRoundTrip(v: nat, n: nat)
    requires n >= 1 && v < Pow(10, n) && v < Pow2(64)
    ensures ParseNumber(Digits(v, n, 10)) == Ok(v)
  {
    var s := Digits(v, n, 10);
    if |s| >= 2 {
      assert DigitValue(s[1], 10).Some?;
    }
    assert !HasHexPrefix(s);
    FromStrRadixOfDigits(v, n, 10, 64);
    assert ParseNumber(s) == MapErr(FromStrRadix(s, 10, 64), false);
  }

  /** The width argument parse_width rejects, with the text it was given. */
  datatype WidthError = InvalidWidth(given: string)

  /** b/B, h/H, w/W (or no argument) and q/Q name the four widths; anything else is an error. */
  function ParseWidth(s: Option<string>): (r: Result<AccessWidth, WidthError>)
    ensures r.Err? <==> s.Some? && s.value !in {"b", "B", "h", "H", "w", "W", "q", "Q"}
    ensures r.Err? ==> r.error == InvalidWidth(s.value)
    ensures s.None? ==> r == Ok(Long)
  {
    match s
    case None => Ok(Long)
    case Some(t) =>
      if t == "b" || t == "B" then Ok(Byte)
      else if t == "h" || t == "H" then Ok(Word)
      else if t == "w" || t == "W" then Ok(Long)
      else if t == "q" || t == "Q" then Ok(LongLong)
      else Err(InvalidWidth(t))
  }

  /** The lower-case letter for each width. */
  function WidthLetter(w: AccessWidth): string {
    match w
    case Byte => "b"
    case Word => "h"
    case Long => "w"
    case LongLong => "q"
  }

  /** Every width is reachable from the command line, and its letter is case-insensitive. */
  lemma ParseWidthSurjective(w: AccessWidth)
    ensures ParseWidth(Some(WidthLetter(w))) == Ok(w)
    ensures ParseWidth(Some([WidthLetter(w)[0] - 32 as char])) == Ok(w)
  {
  }

  /** The name printed for a width. */
  function WidthName(w: AccessWidth): (name: string)
    ensures |name| > 0
  {
    match w
    case Byte => "byte"
    case Word => "word"
    case Long => "long"
    case LongLong => "longlong"
  }

  /** Different widths have different names. */
  lemma WidthNameInjective(v: AccessWidth, w: AccessWidth)
    ensures WidthName(v) == WidthName(w) ==> v == w
  {
  }
}
