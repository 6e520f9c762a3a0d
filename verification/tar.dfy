/**
 * The header reader of mytar: the fields of a tar header block, read from
 * fixed byte ranges as NUL-terminated strings or octal numbers. Where the
 * program panics (a slice past the end, a field that is not an octal number)
 * the model returns None.
 */
module Tar {
  import opened Wrappers
  import opened Bytes
  import opened IntParse

  datatype TarFileHeader = TarFileHeader(
    name: seq<byte>,
    mode: nat,
    owner: nat,
    group: nat,
    size: nat,
    lastmod: nat,
    checksum: nat,
    linkInd: byte,
    linkName: seq<byte>)

  /** TarFileHeader::new: every field empty or zero. */
  const EmptyHeader := TarFileHeader([], 0, 0, 0, 0, 0, 0, 0, [])

  /** The header is read from the first 257 bytes: up to the end of the link name. */
  const HEADER_END: nat := 257

  /** Each byte read as the character with the same code. */
  function Latin1(bs: seq<byte>): (s: string)
    ensures |s| == |bs| && forall i :: 0 <= i < |bs| ==> s[i] as int == bs[i] as int
  {
    seq(|bs|, i requires 0 <= i < |bs| => bs[i] as char)
  }

  /**
   * octal_bytes_to_u64 and octal_bytes_to_u128: the bytes as a string, read in
   * radix 8 into an integer of `bits` bits; None where either unwrap panics.
   * A non-ASCII byte is never an octal digit, so reading each byte as one
   * character fails exactly where UTF-8 decoding or digit parsing would.
   */
  function OctalField(encoded: seq<byte>, bits: nat): (r: Option<nat>)
    ensures r.Some? <==> FromStrRadix(Latin1(encoded), 8, bits).Ok?
    ensures r.Some? ==> r.value == FromStrRadix(Latin1(encoded), 8, bits).value && r.value < Pow2(bits)
  {
    FromStrRadixSpec(Latin1(encoded), 8, bits);
    match FromStrRadix(Latin1(encoded), 8, bits)
    case Ok(v) => Some(v)
    case Err(_) => None
  }

  /**
   * A NullString read: the bytes before the first zero, or the whole field
   * when it holds none (the reader stops at the end of its input without
   * failing).
   */
  function UntilNul(field: seq<byte>): (r: seq<byte>)
    ensures |r| <= |field| && r == field[..|r|] && 0 !in r
    ensures |r| < |field| <==> 0 in field
    ensures |r| < |field| ==> field[|r|] == 0
    ensures 0 !in field ==> r == field
    decreases |field|
  {
    if field == [] then []
    else if field[0] == 0 then []
    else [field[0]] + UntilNul(field[1..])
  }

  /**
   * The header fields read from `contents`, with the modification time taken
   * from bytes 136 up to `lastmodEnd`.
   */
  function DecodeFields(contents: seq<byte>, lastmodEnd: nat): (r: Option<TarFileHeader>)
    requires lastmodEnd == 146 || lastmodEnd == 147
    ensures |contents| < HEADER_END ==> r.None?
  {
    if |contents| < HEADER_END then None
    else
      var name := UntilNul(contents[0..100]);
      var mode := OctalField(contents[100..106], 64);
      var owner := OctalField(contents[108..114], 64);
      var group := OctalField(contents[116..122], 64);
      var size := OctalField(contents[124..135], 128);
      var lastmod := OctalField(contents[136..lastmodEnd], 128);
      var checksum := OctalField(contents[148..154], 64);
      var linkName := UntilNul(contents[157..257]);
      if mode.None? || owner.None? || group.None? || size.None? || lastmod.None? || checksum.None?
      then None
      else Some(TarFileHeader(name, mode.value, owner.value, group.value, size.value, lastmod.value,
                              checksum.value, contents[156], linkName))
  }

  /** get_file_header as written: the modification time is read from bytes 136..146. */
  function DecodeHeaderAsWritten(contents: seq<byte>): Option<TarFileHeader> {
    DecodeFields(contents, 146)
  }

  /** The reading the field layout calls for: all eleven digits of the modification time, 136..147. */
  function DecodeHeaderIntended(contents: seq<byte>): Option<TarFileHeader> {
    DecodeFields(contents, 147)
  }

  /** get_file_header: fills a fresh header field by field, each read at its fixed offset. */
  method GetFileHeader(contents: seq<byte>) returns (r: Option<TarFileHeader>)
    ensures r == DecodeHeaderAsWritten(contents)
  {
    if |contents| < HEADER_END {
      return None;
    }
    var hdr := EmptyHeader;
    hdr := hdr.(name := UntilNul(contents[0..100]));
    var mode := OctalField(contents[100..106], 64);
    if mode.None? { return None; }
    hdr := hdr.(mode := mode.value);
    var owner := OctalField(contents[108..114], 64);
    if owner.None? { return None; }
    hdr := hdr.(owner := owner.value);
    var group := OctalField(contents[116..122], 64);
    if group.None? { return None; }
    hdr := hdr.(group := group.value);
    var size := OctalField(contents[124..135], 128);
    if size.None? { return None; }
    hdr := hdr.(size := size.value);
    var lastmod := OctalField(contents[136..146], 128);
    if lastmod.None? { return None; }
    hdr := hdr.(lastmod := lastmod.value);
    var checksum := OctalField(contents[148..154], 64);
    if checksum.None? { return None; }
    hdr := hdr.(checksum := checksum.value);
    hdr := hdr.(linkInd := contents[156]);
    hdr := hdr.(linkName := UntilNul(contents[157..257]));
    r := Some(hdr);
  }

  // ------------------------------------------------------------------
  // Writing a header block in the layout the reader expects
  // ------------------------------------------------------------------

  const NUL: byte := 0
  const SPACE: byte := 0x20

  /** The bytes of an ASCII string. */
  function AsciiBytes(s: string): (bs: seq<byte>)
    requires forall i :: 0 <= i < |s| ==> s[i] as int < 128
    ensures |bs| == |s| && Latin1(bs) == s
  {
    seq(|s|, i requires 0 <= i < |s| => s[i] as int as byte)
  }

  /** `v` as `n` zero-padded octal digits. */
  function Octal(v: nat, n: nat): (bs: seq<byte>)
    ensures |bs| == n
  {
    var digits := Digits(v, n, 8);
    forall i | 0 <= i < n ensures digits[i] as int < 128 {
      DigitIsAscii(digits[i], 8);
    }
    AsciiBytes(digits)
  }

  /** `s` padded with zero bytes to `n` bytes. */
  function Padded(s: seq<byte>, n: nat): (bs: seq<byte>)
    requires |s| <= n
    ensures |bs| == n && bs[..|s|] == s
  {
    s + seq(n - |s|, _ => 0)
  }

  /** The field values a header block can hold: names of at most 100 bytes without NULs, numbers within their digits. */
  predicate HeaderFits(h: TarFileHeader) {
    && |h.name| <= 100 && 0 !in h.name
    && |h.linkName| <= 100 && 0 !in h.linkName
    && h.mode < Pow(8, 6) && h.owner < Pow(8, 6) && h.group < Pow(8, 6) && h.checksum < Pow(8, 6)
    && h.size < Pow(8, 11) && h.lastmod < Pow(8, 11)
  }

  /**
   * Byte `i` of a header block: the name at 0..100, six-digit mode, owner and
   * group each followed by a space and a NUL, eleven-digit size and
   * modification time each followed by a space, the six-digit checksum
   * followed by a NUL and a space, the link indicator at 156, the link name at
   * 157..257, and zero padding after it.
   */
  function BlockByte(h: TarFileHeader, i: nat): byte
    requires HeaderFits(h)
  {
    if i < 100 then Padded(h.name, 100)[i]
    else if i < 106 then Octal(h.mode, 6)[i - 100]
    else if i < 108 then (if i == 106 then SPACE else NUL)
    else if i < 114 then Octal(h.owner, 6)[i - 108]
    else if i < 116 then (if i == 114 then SPACE else NUL)
    else if i < 122 then Octal(h.group, 6)[i - 116]
    else if i < 124 then (if i == 122 then SPACE else NUL)
    else if i < 135 then Octal(h.size, 11)[i - 124]
    else if i == 135 then SPACE
    else if i < 147 then Octal(h.lastmod, 11)[i - 136]
    else if i == 147 then SPACE
    else if i < 154 then Octal(h.checksum, 6)[i - 148]
    else if i == 154 then NUL
    else if i == 155 then SPACE
    else if i == 156 then h.linkInd
    else if i < 257 then Padded(h.linkName, 100)[i - 157]
    else 0
  }

  /** A 512-byte header block holding `h`. */
  function EncodeHeader(h: TarFileHeader): (block: seq<byte>)
    requires HeaderFits(h)
    ensures |block| == 512
  {
    seq(512, i requires 0 <= i < 512 => BlockByte(h, i))
  }

  // ------------------------------------------------------------------
  // Proof helpers: powers of eight as powers of two
  // ------------------------------------------------------------------

  lemma PowEight(n: nat)
    ensures Pow(8, n) == Pow2(3 * n)
    decreases n
  {
    if n > 0 {
      PowEight(n - 1);
      assert Pow2(3 * n) == 2 * Pow2(3 * n - 1) == 4 * Pow2(3 * n - 2) == 8 * Pow2(3 * (n - 1));
    }
  }

  lemma {:induction false} Pow2Monotone(a: nat, b: nat)
    requires a <= b
    ensures Pow2(a) <= Pow2(b)
    decreases b
  {
    if a < b {
      Pow2Monotone(a, b - 1);
    }
  }

  /** An octal field written with `n` digits reads back as the value. */
  lemma OctalRoundTrip(v: nat, n: nat, bits: nat)
    requires n >= 1 && v < Pow(8, n) && 3 * n <= bits
    ensures OctalField(Octal(v, n), bits) == Some(v)
  {
    PowEight(n);
    Pow2Monotone(3 * n, bits);
    FromStrRadixOfDigits(v, n, 8, bits);
  }

  /** A padded name reads back as the name, also when it fills the field and no NUL follows it. */
  lemma UntilNulPadded(s: seq<byte>, n: nat)
    requires |s| <= n && 0 !in s
    ensures UntilNul(Padded(s, n)) == s
  {
    var p := Padded(s, n);
    var r := UntilNul(p);
    if |s| < n {
      assert p[|s|] == 0;
    }
    assert r == p[..|r|] == s;
  }

  lemma BlockSlice(h: TarFileHeader, off: nat, part: seq<byte>)
    requires HeaderFits(h) && off + |part| <= 512
    requires forall j :: 0 <= j < |part| ==> BlockByte(h, off + j) == part[j]
    ensures EncodeHeader(h)[off..off + |part|] == part
  {
    var b := EncodeHeader(h);
    forall j | 0 <= j < |part| ensures b[off..off + |part|][j] == part[j] {
      assert b[off + j] == BlockByte(h, off + j);
    }
  }

  /** The names and the link indicator in a written block. */
  lemma NamesAt(h: TarFileHeader)
    requires HeaderFits(h)
    ensures var b := EncodeHeader(h);
            b[0..100] == Padded(h.name, 100) && b[156] == h.linkInd && b[157..257] == Padded(h.linkName, 100)
  {
    BlockSlice(h, 0, Padded(h.name, 100));
    assert BlockByte(h, 156) == h.linkInd;
    BlockSlice(h, 157, Padded(h.linkName, 100));
  }

  /** The six-digit fields in a written block. */
  lemma SixDigitFieldsAt(h: TarFileHeader)
    requires HeaderFits(h)
    ensures var b := EncodeHeader(h);
            && b[100..106] == Octal(h.mode, 6)
            && b[108..114] == Octal(h.owner, 6)
            && b[116..122] == Octal(h.group, 6)
            && b[148..154] == Octal(h.checksum, 6)
  {
    BlockSlice(h, 100, Octal(h.mode, 6));
    BlockSlice(h, 108, Octal(h.owner, 6));
    BlockSlice(h, 116, Octal(h.group, 6));
    BlockSlice(h, 148, Octal(h.checksum, 6));
  }

  /** Where each field lies in a written block. */
  lemma EncodeHeaderLayout(h: TarFileHeader)
    requires HeaderFits(h)
    ensures var b := EncodeHeader(h);
            && b[0..100] == Padded(h.name, 100)
            && b[100..106] == Octal(h.mode, 6)
            && b[108..114] == Octal(h.owner, 6)
            && b[116..122] == Octal(h.group, 6)
            && b[124..135] == Octal(h.size, 11)
            && b[136..147] == Octal(h.lastmod, 11)
            && b[148..154] == Octal(h.checksum, 6)
            && b[156] == h.linkInd
            && b[157..257] == Padded(h.linkName, 100)
  {
    NamesAt(h);
    SixDigitFieldsAt(h);
    BlockSlice(h, 124, Octal(h.size, 11));
    BlockSlice(h, 136, Octal(h.lastmod, 11));
  }

  /** Every field other than the modification time reads back from a written block. */
  lemma OtherFieldsRead(h: TarFileHeader)
    requires HeaderFits(h)
    ensures var b := EncodeHeader(h);
            && UntilNul(b[0..100]) == h.name
            && OctalField(b[100..106], 64) == Some(h.mode)
            && OctalField(b[108..114], 64) == Some(h.owner)
            && OctalField(b[116..122], 64) == Some(h.group)
            && OctalField(b[124..135], 128) == Some(h.size)
            && OctalField(b[148..154], 64) == Some(h.checksum)
            && b[156] == h.linkInd
            && UntilNul(b[157..257]) == h.linkName
  {
    EncodeHeaderLayout(h);
    UntilNulPadded(h.name, 100);
    UntilNulPadded(h.linkName, 100);
    OctalRoundTrip(h.mode, 6, 64);
    OctalRoundTrip(h.owner, 6, 64);
    OctalRoundTrip(h.group, 6, 64);
    OctalRoundTrip(h.size, 11, 128);
    OctalRoundTrip(h.checksum, 6, 64);
  }

  /** A block whose fields all read back, with the modification time read as `lastmod`, decodes to those fields. */
  lemma DecodeFieldsOfBlock(h: TarFileHeader, lastmodEnd: nat, lastmod: nat)
    requires HeaderFits(h) && (lastmodEnd == 146 || lastmodEnd == 147)
    requires OctalField(EncodeHeader(h)[136..lastmodEnd], 128) == Some(lastmod)
    ensures DecodeFields(EncodeHeader(h), lastmodEnd) == Some(h.(lastmod := lastmod))
  {
    OtherFieldsRead(h);
  }

  /** The intended reader gives back every field of a written header. */
  lemma IntendedRoundTrip(h: TarFileHeader)
    requires HeaderFits(h)
    ensures DecodeHeaderIntended(EncodeHeader(h)) == Some(h)
  {
    EncodeHeaderLayout(h);
    OctalRoundTrip(h.lastmod, 11, 128);
    DecodeFieldsOfBlock(h, 147, h.lastmod);
  }

  /**
   * get_file_header as written reads every field of a written header back
   * except the modification time, which loses its last octal digit.
   */
  lemma AsWrittenDropsLastDigit(h: TarFileHeader)
    requires HeaderFits(h)
    ensures DecodeHeaderAsWritten(EncodeHeader(h)) == Some(h.(lastmod := h.lastmod / 8))
  {
    LastmodTruncated(h);
    OctalRoundTrip(h.lastmod / 8, 10, 128);
    DecodeFieldsOfBlock(h, 146, h.lastmod / 8);
  }

  /** The ten bytes at 136..146 of a written block are the first ten of the eleven modification-time digits. */
  lemma LastmodTruncated(h: TarFileHeader)
    requires HeaderFits(h)
    ensures EncodeHeader(h)[136..146] == Octal(h.lastmod / 8, 10)
    ensures 0 <= h.lastmod / 8 < Pow(8, 10)
  {
    var b := EncodeHeader(h);
    BlockSlice(h, 136, Octal(h.lastmod, 11));
    DigitsPrefix(h.lastmod, 11, 8);
    assert b[136..146] == b[136..147][..10];
    DivBound(h.lastmod, 8, Pow(8, 10));
  }

  /** A header whose modification time is 1 is read back as written with modification time 0. */
  lemma LastmodCounterexample()
    ensures var h := EmptyHeader.(lastmod := 1);
            && HeaderFits(h)
            && DecodeHeaderAsWritten(EncodeHeader(h)) == Some(EmptyHeader)
            && DecodeHeaderIntended(EncodeHeader(h)) == Some(h)
  {
    var h := EmptyHeader.(lastmod := 1);
    assert HeaderFits(h);
    AsWrittenDropsLastDigit(h);
    IntendedRoundTrip(h);
  }
}
