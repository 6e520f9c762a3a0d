/**
 * The PSP header of the bitfields crate example: a flags byte laid out with
 * s at bit 0, d at bit 1, version at bits 2..5, vc at bit 6 and r at bit 7,
 * and a header record whose builder defaults every field it is not given.
 */
module PspBitfields {
  import opened Wrappers

  /** Bit `i` of the flags byte. */
  function Bit(flags: bv8, i: nat): bool
    requires i < 8
  {
    (flags >> i) & 1 == 1
  }

  /** The flags byte with bit `i` set to `v`. */
  function SetBit(flags: bv8, i: nat, v: bool): (r: bv8)
    requires i < 8
  {
    if v then flags | (1 << i) else flags & !(1 << i)
  }

  /** `version()`: bits 2..5. */
  function Version(flags: bv8): bv8 {
    (flags >> 2) & 0x0F
  }

  /** `set_version(v)`: bits 2..5 replaced by the low four bits of `v`. */
  function SetVersion(flags: bv8, v: bv8): bv8 {
    (flags & !0x3C) | ((v << 2) & 0x3C)
  }

  const S_BIT: nat := 0
  const D_BIT: nat := 1
  const VC_BIT: nat := 6
  const R_BIT: nat := 7

  /** Setting a single bit makes it read back and leaves the other seven bits alone. */
  lemma SetBitSpec(flags: bv8, i: nat, v: bool)
    requires i < 8
    ensures Bit(SetBit(flags, i, v), i) == v
    ensures forall j :: 0 <= j < 8 && j != i ==> Bit(SetBit(flags, i, v), j) == Bit(flags, j)
  {
    forall j | 0 <= j < 8 && j != i
      ensures Bit(SetBit(flags, i, v), j) == Bit(flags, j)
    {
      SetBitOther(flags, i, v, j);
    }
  }

  lemma SetBitOther(flags: bv8, i: nat, v: bool, j: nat)
    requires i < 8 && j < 8 && j != i
    ensures Bit(SetBit(flags, i, v), j) == Bit(flags, j)
  {
    var mask: bv8 := 1 << i;
    assert (mask >> j) & 1 == 0;
  }

  /** Setting the version makes it read back (low four bits) and leaves s, d, vc and r alone. */
  lemma SetVersionSpec(flags: bv8, v: bv8)
    ensures Version(SetVersion(flags, v)) == v & 0x0F
    ensures SetVersion(flags, v) & 0xC3 == flags & 0xC3
  {
  }

  /** PspHeaderFlags::default: starting from zero, s, d, version and vc cleared and r set in turn. */
  method DefaultFlags() returns (flags: bv8)
    ensures flags == 0x80
    ensures !Bit(flags, S_BIT) && !Bit(flags, D_BIT) && Version(flags) == 0 && !Bit(flags, VC_BIT) && Bit(flags, R_BIT)
  {
    flags := 0;
    flags := SetBit(flags, S_BIT, false);
    flags := SetBit(flags, D_BIT, false);
    flags := SetVersion(flags, 0);
    flags := SetBit(flags, VC_BIT, false);
    flags := SetBit(flags, R_BIT, true);
  }

  /** The protocol versions; `as u8` gives the declaration index. */
  datatype PspVersion = PspVer0 | PspVer1 | PspVer2 | PspVer3

  function VersionNumber(v: PspVersion): (n: bv8)
    ensures n < 4
    ensures v == PspVer0 <==> n == 0
  {
    match v
    case PspVer0 => 0
    case PspVer1 => 1
    case PspVer2 => 2
    case PspVer3 => 3
  }

  /** Every version number fits the four-bit field and reads back unchanged. */
  lemma VersionNumberFits(v: PspVersion, flags: bv8)
    ensures Version(SetVersion(flags, VersionNumber(v))) == VersionNumber(v)
  {
  }

  /** The value of `PspHeaderFlags::default()`. */
  const DEFAULT_FLAGS: bv8 := 0x80

  /** Setting version 1 on the default flags gives 0x84: r survives. */
  lemma DefaultWithVersionOne()
    ensures SetVersion(DEFAULT_FLAGS, VersionNumber(PspVer1)) == 0x84
    ensures Bit(SetVersion(DEFAULT_FLAGS, VersionNumber(PspVer1)), R_BIT)
  {
  }

  datatype PspHeader = PspHeader(nextHdr: nat, hdrExtLen: nat, cryptOff: nat, flags: bv8, spi: nat, iv: nat)

  /** A builder: each field is either given or left to its default. */
  datatype PspHeaderBuilder = PspHeaderBuilder(
    nextHdr: Option<nat>, hdrExtLen: Option<nat>, cryptOff: Option<nat>,
    flags: Option<bv8>, spi: Option<nat>, iv: Option<nat>)

  function OrElse<T>(o: Option<T>, d: T): (r: T)
    ensures o.Some? ==> r == o.value
    ensures o.None? ==> r == d
  {
    if o.Some? then o.value else d
  }

  /** `PspHeaderBuilder::default()`: nothing given. */
  const EMPTY_BUILDER := PspHeaderBuilder(None, None, None, None, None, None)

  /** `build()` with `#[builder(default)]`: given fields are kept, the rest take their defaults. */
  function Build(b: PspHeaderBuilder): (h: PspHeader)
    ensures h.nextHdr == (if b.nextHdr.Some? then b.nextHdr.value else 0)
    ensures h.hdrExtLen == (if b.hdrExtLen.Some? then b.hdrExtLen.value else 0)
    ensures h.cryptOff == (if b.cryptOff.Some? then b.cryptOff.value else 0)
    ensures h.flags == (if b.flags.Some? then b.flags.value else DEFAULT_FLAGS)
    ensures h.spi == (if b.spi.Some? then b.spi.value else 0)
    ensures h.iv == (if b.iv.Some? then b.iv.value else 0)
  {
    PspHeader(OrElse(b.nextHdr, 0), OrElse(b.hdrExtLen, 0), OrElse(b.cryptOff, 0),
              OrElse(b.flags, DEFAULT_FLAGS), OrElse(b.spi, 0), OrElse(b.iv, 0))
  }

  /** The builder test: next_hdr, spi and iv kept, flags left at 0x80. */
  lemma BuilderWithDefaults()
    ensures var h := Build(EMPTY_BUILDER.(nextHdr := Some(17), spi := Some(0x12345678), iv := Some(0x12345678_9ABCDEF0)));
            h == PspHeader(17, 0, 0, 0x80, 0x12345678, 0x12345678_9ABCDEF0)
  {
  }

  /** The second builder test: flags given as the default with version 1 are kept as 0x84. */
  lemma BuilderWithFlags()
    ensures var flags := SetVersion(DEFAULT_FLAGS, VersionNumber(PspVer1));
            var h := Build(EMPTY_BUILDER.(nextHdr := Some(17), spi := Some(0x12345678), iv := Some(0x12345678_9ABCDEF0), flags := Some(flags)));
            h.flags == 0x84 && h.nextHdr == 17 && h.spi == 0x12345678 && h.iv == 0x12345678_9ABCDEF0
  {
  }
}
