/**
 * The PSP configuration parser of cfgparse: master keys written as spaced
 * hexadecimal bytes, the SPI in hexadecimal, and the nine lines of a
 * configuration text consumed in a fixed order.
 */
module CfgParse {
  import opened Wrappers
  import opened Bytes
  import opened IntParse
  import opened Text

  // ------------------------------------------------------------------
  // Hexadecimal keys
  // ------------------------------------------------------------------

  /** The two ways hex::decode rejects its input. */
  datatype HexError = OddLength | InvalidHexCharacter

  /** The number of bytes of the UTF-8 encoding of `c`. */
  function CharWidth(c: char): nat {
    if c as int < 0x80 then 1 else if c as int < 0x800 then 2 else if c as int < 0x1_0000 then 3 else 4
  }

  /** The length of the UTF-8 encoding of `s`, which is what hex::decode measures. */
  function Utf8Len(s: string): (n: nat)
    ensures n >= |s|
    decreases |s|
  {
    if s == [] then 0 else CharWidth(s[0]) + Utf8Len(s[1..])
  }

  lemma {:induction false} HexDigitsAreAscii(s: string)
    requires AllDigits(s, 16)
    ensures Utf8Len(s) == |s|
    decreases |s|
  {
    if s != [] {
      DigitIsAscii(s[0], 16);
      AllDigitsDrop(s, 1, 16);
      HexDigitsAreAscii(s[1..]);
    }
  }

  lemma AllDigitsDrop(s: string, k: nat, radix: nat)
    requires 2 <= radix <= 36 && k <= |s| && AllDigits(s, radix)
    ensures AllDigits(s[k..], radix)
  {
    assert forall i :: 0 <= i < |s| - k ==> s[k..][i] == s[k + i];
  }

  /** The bytes of a string of hex digits, two digits (high, then low) per byte. */
  function Pairs(s: string): (bs: seq<byte>)
    requires |s| % 2 == 0 && AllDigits(s, 16)
    ensures 2 * |bs| == |s|
    decreases |s|
  {
    if s == [] then []
    else
      AllDigitsDrop(s, 2, 16);
      [16 * DigitValue(s[0], 16).value + DigitValue(s[1], 16).value] + Pairs(s[2..])
  }

  /**
   * hex::decode: an odd number of bytes is OddLength, checked first; then any
   * byte that is not a hexadecimal digit is InvalidHexCharacter.
   */
  function HexDecode(s: string): (r: Result<seq<byte>, HexError>)
    ensures r.Ok? <==> Utf8Len(s) % 2 == 0 && AllDigits(s, 16)
    ensures r.Err? ==> (r.error == OddLength <==> Utf8Len(s) % 2 != 0)
    ensures r.Ok? ==> 2 * |r.value| == |s|
  {
    if Utf8Len(s) % 2 != 0 then Err(OddLength)
    else if !AllDigits(s, 16) then Err(InvalidHexCharacter)
    else
      HexDigitsAreAscii(s);
      Ok(Pairs(s))
  }

  /** parse_key: the pieces between spaces collected into one string, then hex-decoded. */
  function ParseKey(line: string): (r: Result<seq<byte>, HexError>)
    ensures r == HexDecode(Remove(line, ' '))
  {
    ConcatSplit(line, ' ');
    HexDecode(Join(Split(line, ' '), []))
  }

  /** `{:02X}`: two upper-case hexadecimal digits. */
  function Hex2(b: byte): (s: string)
    ensures |s| == 2 && AllDigits(s, 16)
  {
    [DigitChar(b / 16), DigitChar(b % 16)]
  }

  /** key_to_string: each byte as two hexadecimal digits, joined by single spaces. */
  function KeyToString(key: seq<byte>): string {
    Join(seq(|key|, i requires 0 <= i < |key| => Hex2(key[i])), " ")
  }

  /** The pieces of a key rendering, concatenated without separators. */
  function HexConcat(key: seq<byte>): (s: string)
    ensures |s| == 2 * |key| && AllDigits(s, 16)
    decreases |key|
  {
    if key == [] then []
    else
      var s := Hex2(key[0]) + HexConcat(key[1..]);
      assert forall i :: 0 <= i < |s| ==> s[i] == if i < 2 then Hex2(key[0])[i] else HexConcat(key[1..])[i - 2];
      s
  }

  lemma {:induction false} JoinHexPieces(key: seq<byte>)
    ensures Join(seq(|key|, i requires 0 <= i < |key| => Hex2(key[i])), []) == HexConcat(key)
    decreases |key|
  {
    var parts := seq(|key|, i requires 0 <= i < |key| => Hex2(key[i]));
    if |key| > 1 {
      assert parts[1..] == seq(|key| - 1, i requires 0 <= i < |key| - 1 => Hex2(key[1..][i]));
      JoinHexPieces(key[1..]);
    } else if |key| == 1 {
      assert HexConcat(key[1..]) == [];
    }
  }

  lemma {:induction false} PairsOfHexConcat(key: seq<byte>)
    ensures Pairs(HexConcat(key)) == key
    decreases |key|
  {
    if key != [] {
      var s := HexConcat(key);
      assert s[2..] == HexConcat(key[1..]);
      assert s[..2] == Hex2(key[0]);
      PairsOfHexConcat(key[1..]);
      var b := key[0];
      assert 16 * (b / 16) + b % 16 == b;
    }
  }

  /** Reading back a rendered key gives the key. */
  lemma ParseKeyOfKeyToString(key: seq<byte>)
    ensures ParseKey(KeyToString(key)) == Ok(key)
  {
    var parts := seq(|key|, i requires 0 <= i < |key| => Hex2(key[i]));
    var text := KeyToString(key);
    var hc := HexConcat(key);
    if key == [] {
      assert Split(text, ' ') == [[]];
      assert Join(Split(text, ' '), []) == hc;
    } else {
      forall i | 0 <= i < |parts| ensures ' ' !in parts[i] {
        DigitIsAscii(parts[i][0], 16);
        DigitIsAscii(parts[i][1], 16);
      }
      SplitJoin(parts, ' ');
      JoinHexPieces(key);
      assert Join(Split(text, ' '), []) == hc;
    }
    HexDigitsAreAscii(hc);
    PairsOfHexConcat(key);
    assert HexDecode(hc) == Ok(key);
  }

  /** parse_spi: the whole line as a hexadecimal u32. */
  function ParseSpi(line: string): Result<nat, IntErrorKind> {
    FromStrRadix(line, 16, 32)
  }

  /** parse_spi accepts an optional '+' and hexadecimal digits whose value fits in 32 bits, and returns that value. */
  lemma ParseSpiSpec(line: string)
    ensures var d := Unsigned(line);
            && (ParseSpi(line).Ok? <==> |d| > 0 && AllDigits(d, 16) && ValueFrom(0, d, 16) < Pow2(32))
            && (ParseSpi(line).Ok? ==> ParseSpi(line).value == ValueFrom(0, d, 16))
  {
    FromStrRadixSpec(line, 16, 32);
  }

  /** `str::parse::<u8>`: a decimal u8. */
  function ParseOffset(line: string): Result<nat, IntErrorKind> {
    FromStrRadix(line, 10, 8)
  }

  /** An offset line is accepted when it holds decimal digits whose value is below 256, and yields that value. */
  lemma ParseOffsetSpec(line: string)
    ensures var d := Unsigned(line);
            && (ParseOffset(line).Ok? <==> |d| > 0 && AllDigits(d, 10) && ValueFrom(0, d, 10) < 256)
            && (ParseOffset(line).Ok? ==> ParseOffset(line).value == ValueFrom(0, d, 10))
  {
    FromStrRadixSpec(line, 10, 8);
    assert Pow2(8) == 256;
  }

  // ------------------------------------------------------------------
  // The configuration lines
  // ------------------------------------------------------------------

  /** The values parse_cfg_file reads (and logs), in line order. */
  datatype CfgValues = CfgValues(
    key1: seq<byte>,
    key2: seq<byte>,
    spi: nat,
    mode: string,
    alg: string,
    transportCryptOffset: nat,
    ipv4TunnelCryptOffset: nat,
    ipv6TunnelCryptOffset: nat,
    vc: bool)

  datatype CfgError =
    | Missing(message: string)
    | KeyError(hex: HexError)
    | SpiError(spi: IntErrorKind)
    | OffsetError(offset: IntErrorKind)

  /** The error for each line when the text ends before it. */
  const MISSING: seq<string> := [
    "Key 1 not found", "Key 2 not found", "SPI not found", "Mode not found", "Algorithm not found",
    "No transport crypt offset", "No ipv4 tunnel crypt offset", "No ipv6 tunnel crypt offset", "No vc setting"]

  /** The number of lines a configuration needs. */
  const CFG_LINES: nat := 9

  /** Each line with surrounding whitespace trimmed. */
  function TrimLines(lines: seq<string>): (r: seq<string>)
    ensures |r| == |lines| && forall i :: 0 <= i < |r| ==> r[i] == Trim(lines[i])
  {
    seq(|lines|, i requires 0 <= i < |lines| => Trim(lines[i]))
  }

  /** The nine fields taken in order from the front of `lines`, stopping at the first missing or bad one. */
  function ParseLines(lines: seq<string>): (r: Result<CfgValues, CfgError>)
  {
    if |lines| < 1 then Err(Missing(MISSING[0])) else
    match ParseKey(lines[0])
    case Err(e) => Err(KeyError(e))
    case Ok(key1) =>
      if |lines| < 2 then Err(Missing(MISSING[1])) else
      match ParseKey(lines[1])
      case Err(e) => Err(KeyError(e))
      case Ok(key2) =>
        if |lines| < 3 then Err(Missing(MISSING[2])) else
        match ParseSpi(lines[2])
        case Err(e) => Err(SpiError(e))
        case Ok(spi) =>
          if |lines| < 6 then Err(Missing(MISSING[|lines|])) else
          match ParseOffset(lines[5])
          case Err(e) => Err(OffsetError(e))
          case Ok(tco) =>
            if |lines| < 7 then Err(Missing(MISSING[6])) else
            match ParseOffset(lines[6])
            case Err(e) => Err(OffsetError(e))
            case Ok(v4) =>
              if |lines| < 8 then Err(Missing(MISSING[7])) else
              match ParseOffset(lines[7])
              case Err(e) => Err(OffsetError(e))
              case Ok(v6) =>
                if |lines| < 9 then Err(Missing(MISSING[8]))
                else Ok(CfgValues(key1, key2, spi, lines[3], lines[4], tco, v4, v6, lines[8] == "vc"))
  }

  /** parse_cfg_file on the text of the file: split on '\n', trim each line, consume the fields. */
  function ParseCfgText(contents: string): Result<CfgValues, CfgError> {
    ParseLines(TrimLines(Split(contents, '\n')))
  }

  /**
   * The line consumption of parse_cfg_file: pops one line per field off the
   * front of the queue and returns at the first missing line or parse error.
   */
  method ConsumeLines(queue: seq<string>) returns (r: Result<CfgValues, CfgError>)
    ensures r == ParseLines(queue)
  {
    var lines := queue;
    if |lines| == 0 { return Err(Missing(MISSING[0])); }
    var key1str := lines[0];
    lines := lines[1..];
    assert lines == queue[1..];
    var key1 := ParseKey(key1str);
    if key1.Err? { return Err(KeyError(key1.error)); }

    if |lines| == 0 { return Err(Missing(MISSING[1])); }
    var key2str := lines[0];
    lines := lines[1..];
    assert lines == queue[2..];
    var key2 := ParseKey(key2str);
    if key2.Err? { return Err(KeyError(key2.error)); }

    if |lines| == 0 { return Err(Missing(MISSING[2])); }
    var spistr := lines[0];
    lines := lines[1..];
    assert lines == queue[3..];
    var spi := ParseSpi(spistr);
    if spi.Err? { return Err(SpiError(spi.error)); }

    if |lines| == 0 { return Err(Missing(MISSING[3])); }
    var mode := lines[0];
    lines := lines[1..];
    assert lines == queue[4..];

    if |lines| == 0 { return Err(Missing(MISSING[4])); }
    var alg := lines[0];
    lines := lines[1..];
    assert lines == queue[5..];

    if |lines| == 0 { return Err(Missing(MISSING[5])); }
    var tco := ParseOffset(lines[0]);
    lines := lines[1..];
    assert lines == queue[6..];
    if tco.Err? { return Err(OffsetError(tco.error)); }

    if |lines| == 0 { return Err(Missing(MISSING[6])); }
    var v4 := ParseOffset(lines[0]);
    lines := lines[1..];
    assert lines == queue[7..];
    if v4.Err? { return Err(OffsetError(v4.error)); }

    if |lines| == 0 { return Err(Missing(MISSING[7])); }
    var v6 := ParseOffset(lines[0]);
    lines := lines[1..];
    assert lines == queue[8..];
    if v6.Err? { return Err(OffsetError(v6.error)); }

    if |lines| == 0 { return Err(Missing(MISSING[8])); }
    var vc := lines[0] == "vc";
    r := Ok(CfgValues(key1.value, key2.value, spi.value, mode, alg, tco.value, v4.value, v6.value, vc));
  }

  /** parse_cfg_file without the file read: the text is split, trimmed and consumed. */
  method ParseCfgFile(contents: string) returns (r: Result<CfgValues, CfgError>)
    ensures r == ParseCfgText(contents)
  {
    var lines := TrimLines(Split(contents, '\n'));
    r := ConsumeLines(lines);
  }

  /**
   * A missing line is reported by the message of the first field it lacks;
   * a successful parse read at least nine lines, and `vc` is set exactly when
   * the ninth line is "vc".
   */
  lemma ParseLinesOutcome(lines: seq<string>)
    ensures var r := ParseLines(lines);
            && (r.Err? && r.error.Missing? ==> |lines| < CFG_LINES && r.error.message == MISSING[|lines|])
            && (r.Ok? ==> |lines| >= CFG_LINES && r.value.vc == (lines[8] == "vc")
                          && r.value.mode == lines[3] && r.value.alg == lines[4]
                          && Ok(r.value.key1) == ParseKey(lines[0]) && Ok(r.value.key2) == ParseKey(lines[1])
                          && Ok(r.value.spi) == ParseSpi(lines[2]))
            && ((|lines| >= CFG_LINES && ParseKey(lines[0]).Ok? && ParseKey(lines[1]).Ok? && ParseSpi(lines[2]).Ok?
                 && ParseOffset(lines[5]).Ok? && ParseOffset(lines[6]).Ok? && ParseOffset(lines[7]).Ok?) ==> r.Ok?)
  {
  }

  /** Only the first message is the first key's. */
  lemma MissingDistinct(k: nat)
    requires 1 <= k < CFG_LINES
    ensures MISSING[k] != MISSING[0]
  {
    if k == 1 {
      assert MISSING[1][4] != MISSING[0][4];
    } else {
      assert |MISSING[0]| == 15;
      assert |MISSING[k]| != 15;
    }
  }

  /** The text always has a first line, so the first key is never reported missing. */
  lemma FirstKeyNeverMissing(contents: string)
    ensures ParseCfgText(contents) != Err(Missing(MISSING[0]))
  {
    var lines := TrimLines(Split(contents, '\n'));
    ParseLinesOutcome(lines);
    var r := ParseLines(lines);
    if r.Err? && r.error.Missing? {
      MissingDistinct(|lines|);
    }
  }

  // ------------------------------------------------------------------
  // Writing a configuration text
  // ------------------------------------------------------------------

  /** Values a configuration text can carry: a u32 SPI, u8 offsets, one-line trimmed mode and algorithm. */
  predicate CfgFits(v: CfgValues) {
    && v.spi < Pow2(32)
    && v.transportCryptOffset < 256 && v.ipv4TunnelCryptOffset < 256 && v.ipv6TunnelCryptOffset < 256
    && '\n' !in v.mode && Trimmed(v.mode)
    && '\n' !in v.alg && Trimmed(v.alg)
  }

  /** Line `i` of a configuration holding `v`: keys, `{:08X}` SPI, mode, algorithm, three-digit offsets, "vc" or "novc". */
  function RenderLine(v: CfgValues, i: nat): string
    requires CfgFits(v) && i < CFG_LINES
  {
    if i == 0 then KeyToString(v.key1)
    else if i == 1 then KeyToString(v.key2)
    else if i == 2 then Digits(v.spi, 8, 16)
    else if i == 3 then v.mode
    else if i == 4 then v.alg
    else if i == 5 then Digits(v.transportCryptOffset, 3, 10)
    else if i == 6 then Digits(v.ipv4TunnelCryptOffset, 3, 10)
    else if i == 7 then Digits(v.ipv6TunnelCryptOffset, 3, 10)
    else if v.vc then "vc" else "novc"
  }

  /** The nine lines of a configuration holding `v`. */
  function RenderLines(v: CfgValues): (lines: seq<string>)
    requires CfgFits(v)
    ensures |lines| == CFG_LINES
  {
    seq(CFG_LINES, i requires 0 <= i < CFG_LINES => RenderLine(v, i))
  }

  function RenderCfg(v: CfgValues): string
    requires CfgFits(v)
  {
    Join(RenderLines(v), "\n")
  }

  lemma DigitsLine(v: nat, n: nat, radix: nat)
    requires 2 <= radix <= 36 && n >= 1
    ensures '\n' !in Digits(v, n, radix) && ' ' !in Digits(v, n, radix) && Trimmed(Digits(v, n, radix))
  {
    var s := Digits(v, n, radix);
    forall i | 0 <= i < |s| ensures s[i] != '\n' && s[i] != ' ' && !IsWhitespace(s[i]) {
      DigitIsAscii(s[i], radix);
    }
  }

  /** A rendered key is one trimmed line. */
  lemma KeyLine(key: seq<byte>)
    ensures '\n' !in KeyToString(key) && Trimmed(KeyToString(key))
  {
    var parts := seq(|key|, i requires 0 <= i < |key| => Hex2(key[i]));
    forall i | 0 <= i < |parts| ensures '\n' !in parts[i] && !IsWhitespace(parts[i][0]) && !IsWhitespace(parts[i][1]) {
      DigitsLine(key[i] as int, 2, 16);
      DigitIsAscii(parts[i][0], 16);
      DigitIsAscii(parts[i][1], 16);
    }
    JoinChars(parts, " ", '\n');
    if key != [] {
      JoinEnds(parts, " ");
    }
  }

  // ------------------------------------------------------------------
  // Proof helpers: powers of sixteen and the constants the lemmas below use
  // ------------------------------------------------------------------

  lemma PowSixteen(n: nat)
    ensures Pow(16, n) == Pow2(4 * n)
    decreases n
  {
    if n > 0 {
      PowSixteen(n - 1);
      assert Pow2(4 * n) == 2 * Pow2(4 * n - 1) == 4 * Pow2(4 * n - 2) == 8 * Pow2(4 * n - 3) == 16 * Pow2(4 * (n - 1));
    }
  }

  lemma SmallPowers()
    ensures Pow(10, 3) == 1000 && Pow2(8) == 256
  {
  }

  /** Every rendered line is a single trimmed line. */
  lemma RenderLineOk(v: CfgValues, i: nat)
    requires CfgFits(v) && i < CFG_LINES
    ensures '\n' !in RenderLine(v, i) && Trimmed(RenderLine(v, i))
  {
    if i == 0 {
      KeyLine(v.key1);
    } else if i == 1 {
      KeyLine(v.key2);
    } else if i == 2 {
      DigitsLine(v.spi, 8, 16);
    } else if i == 5 {
      DigitsLine(v.transportCryptOffset, 3, 10);
    } else if i == 6 {
      DigitsLine(v.ipv4TunnelCryptOffset, 3, 10);
    } else if i == 7 {
      DigitsLine(v.ipv6TunnelCryptOffset, 3, 10);
    }
  }

  lemma RenderLineShape(v: CfgValues, i: nat)
    requires CfgFits(v) && i < CFG_LINES
    ensures '\n' !in RenderLines(v)[i] && Trimmed(RenderLines(v)[i])
  {
    assert RenderLines(v)[i] == RenderLine(v, i);
    RenderLineOk(v, i);
  }

  lemma RenderLinesShape(v: CfgValues)
    requires CfgFits(v)
    ensures forall i :: 0 <= i < CFG_LINES ==> '\n' !in RenderLines(v)[i] && Trimmed(RenderLines(v)[i])
  {
    forall i | 0 <= i < CFG_LINES ensures '\n' !in RenderLines(v)[i] && Trimmed(RenderLines(v)[i]) {
      RenderLineShape(v, i);
    }
  }

  /** Splitting and trimming a rendered text gives back its lines. */
  lemma LinesOfRender(v: CfgValues)
    requires CfgFits(v)
    ensures TrimLines(Split(RenderCfg(v), '\n')) == RenderLines(v)
  {
    var lines := RenderLines(v);
    RenderLinesShape(v);
    SplitJoin(lines, '\n');
    forall i | 0 <= i < |lines| ensures Trim(lines[i]) == lines[i] {
      TrimOfTrimmed(lines[i]);
    }
  }

  /** Nine lines whose fields each parse to the corresponding value parse to the values. */
  lemma ParseLinesOk(lines: seq<string>, v: CfgValues)
    requires |lines| == CFG_LINES
    requires ParseKey(lines[0]) == Ok(v.key1) && ParseKey(lines[1]) == Ok(v.key2)
    requires ParseSpi(lines[2]) == Ok(v.spi) && lines[3] == v.mode && lines[4] == v.alg
    requires ParseOffset(lines[5]) == Ok(v.transportCryptOffset)
    requires ParseOffset(lines[6]) == Ok(v.ipv4TunnelCryptOffset)
    requires ParseOffset(lines[7]) == Ok(v.ipv6TunnelCryptOffset)
    requires (lines[8] == "vc") == v.vc
    ensures ParseLines(lines) == Ok(v)
  {
  }

  lemma OffsetRoundTrip(x: nat)
    requires x < 256
    ensures ParseOffset(Digits(x, 3, 10)) == Ok(x)
  {
    SmallPowers();
    FromStrRadixOfDigits(x, 3, 10, 8);
  }

  lemma RenderedSpiParses(v: CfgValues)
    requires CfgFits(v)
    ensures ParseSpi(RenderLines(v)[2]) == Ok(v.spi)
  {
    assert RenderLines(v)[2] == Digits(v.spi, 8, 16);
    PowSixteen(8);
    FromStrRadixOfDigits(v.spi, 8, 16, 32);
  }

  lemma RenderedNumbersParse(v: CfgValues)
    requires CfgFits(v)
    ensures ParseSpi(RenderLines(v)[2]) == Ok(v.spi)
    ensures ParseOffset(RenderLines(v)[5]) == Ok(v.transportCryptOffset)
    ensures ParseOffset(RenderLines(v)[6]) == Ok(v.ipv4TunnelCryptOffset)
    ensures ParseOffset(RenderLines(v)[7]) == Ok(v.ipv6TunnelCryptOffset)
  {
    var lines := RenderLines(v);
    RenderedSpiParses(v);
    assert lines[5] == Digits(v.transportCryptOffset, 3, 10);
    OffsetRoundTrip(v.transportCryptOffset);
    assert lines[6] == Digits(v.ipv4TunnelCryptOffset, 3, 10);
    OffsetRoundTrip(v.ipv4TunnelCryptOffset);
    assert lines[7] == Digits(v.ipv6TunnelCryptOffset, 3, 10);
    OffsetRoundTrip(v.ipv6TunnelCryptOffset);
  }

  /** The key lines and the text lines of a rendering. */
  lemma RenderedText(v: CfgValues)
    requires CfgFits(v)
    ensures RenderLines(v)[0] == KeyToString(v.key1) && RenderLines(v)[1] == KeyToString(v.key2)
    ensures RenderLines(v)[3] == v.mode && RenderLines(v)[4] == v.alg
    ensures (RenderLines(v)[8] == "vc") == v.vc
  {
    var last := RenderLines(v)[8];
    assert last == RenderLine(v, 8);
    if !v.vc {
      assert |last| == 4;
    }
  }

  /** The rendered lines parse to the values. */
  lemma ParseLinesOfRender(v: CfgValues)
    requires CfgFits(v)
    ensures ParseLines(RenderLines(v)) == Ok(v)
  {
    var lines := RenderLines(v);
    RenderedText(v);
    ParseKeyOfKeyToString(v.key1);
    ParseKeyOfKeyToString(v.key2);
    RenderedNumbersParse(v);
    ParseLinesOk(lines, v);
  }

  /** Reading a rendered configuration text gives back the values. */
  lemma ParseCfgTextOfRender(v: CfgValues)
    requires CfgFits(v)
    ensures ParseCfgText(RenderCfg(v)) == Ok(v)
  {
    LinesOfRender(v);
    ParseLinesOfRender(v);
  }
}
