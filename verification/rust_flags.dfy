/**
 * The Flags newtype of rust-flags: one byte holding S (bit 0), D (bit 1), a
 * version in bits 2..5 and a reserved bit 7 that defaults to 1. The getters
 * are bit expressions; the setters update the byte in place.
 */
module RustFlags {
  /** The byte after `set_s(val)`: bit 0 set or cleared. */
  function WithS(b: bv8, val: bool): bv8 {
    if val then b | 0x01 else b & 0xFE
  }

  /** The byte after `set_d(val)`: bit 1 set or cleared. */
  function WithD(b: bv8, val: bool): bv8 {
    if val then b | 0x02 else b & 0xFD
  }

  /** `set_version` as written: ORs in `(val << 2) & 0xC3`. */
  function WithVersionAsWritten(b: bv8, val: bv8): bv8 {
    b | ((val << 2) & 0xC3)
  }

  /** What the layout calls for: bits 2..5 replaced by the low four bits of `val`. */
  function WithVersionIntended(b: bv8, val: bv8): bv8 {
    (b & 0xC3) | ((val << 2) & 0x3C)
  }

  /** `s()`: bit 0. */
  function SBit(b: bv8): bool {
    b & 0x01 == 1
  }

  /** `d()`: bit 1. */
  function DBit(b: bv8): bool {
    (b >> 1) & 0x01 == 1
  }

  /** `version()`: bits 2..5. */
  function VersionBits(b: bv8): bv8 {
    (b >> 2) & 0x0F
  }

  /** `Flags::default()`: only the reserved bit set. */
  const DEFAULT_FLAGS: bv8 := 0x80

  class Flags {
    var bits: bv8

    /** Flags::new */
    constructor New(value: bv8)
      ensures bits == value
    {
      bits := value;
    }

    /** Flags::default */
    constructor Default()
      ensures bits == DEFAULT_FLAGS
    {
      bits := 0x80;
    }

    function S(): bool
      reads this
    {
      SBit(bits)
    }

    function D(): bool
      reads this
    {
      DBit(bits)
    }

    function Version(): bv8
      reads this
    {
      VersionBits(bits)
    }

    method SetS(val: bool)
      modifies this
      ensures bits == WithS(old(bits), val)
    {
      if val {
        bits := bits | 0x01;
      } else {
        bits := bits & 0xFE;
      }
    }

    method SetD(val: bool)
      modifies this
      ensures bits == WithD(old(bits), val)
    {
      if val {
        bits := bits | 0x02;
      } else {
        bits := bits & 0xFD;
      }
    }

    /** set_version as written. */
    method SetVersion(val: bv8)
      modifies this
      ensures bits == WithVersionAsWritten(old(bits), val)
    {
      bits := bits | ((val << 2) & 0xC3);
    }

    /** build: a copy of the current byte. */
    method Build() returns (f: bv8)
      ensures f == bits
    {
      f := bits;
    }
  }

  /** set_s(val) makes `s()` equal `val` and leaves every other bit alone. */
  lemma WithSOnlyBit0(b: bv8, val: bool)
    ensures SBit(WithS(b, val)) == val
    ensures WithS(b, val) & 0xFE == b & 0xFE
  {
  }

  /** set_d(val) makes `d()` equal `val` and leaves every other bit alone. */
  lemma WithDOnlyBit1(b: bv8, val: bool)
    ensures DBit(WithD(b, val)) == val
    ensures WithD(b, val) & 0xFD == b & 0xFD
  {
  }

  /** Setting S and D from a zero byte, in every combination, gives 3, 1, 2 and 0. */
  lemma SetSAndDCombinations()
    ensures WithD(WithS(0, true), true) == 3
    ensures WithD(WithS(3, true), false) == 1
    ensures WithD(WithS(1, false), true) == 2
    ensures WithD(WithS(2, false), false) == 0
  {
  }

  /** The default byte with S and D set builds to 0x83. */
  method DefaultWithSAndD() returns (f: bv8)
    ensures f == 0x83
  {
    var flags := new Flags.Default();
    flags.SetS(true);
    flags.SetD(true);
    f := flags.Build();
  }

  /** As written, set_version never changes `version()`: the mask keeps no bit of the field. */
  lemma SetVersionKeepsVersion(b: bv8, val: bv8)
    ensures VersionBits(WithVersionAsWritten(b, val)) == VersionBits(b)
  {
  }

  /** On the default byte, set_version(1) as written leaves the version at 0. */
  lemma SetVersionCounterexample()
    ensures VersionBits(WithVersionAsWritten(DEFAULT_FLAGS, 1)) == 0
    ensures VersionBits(WithVersionIntended(DEFAULT_FLAGS, 1)) == 1
  {
  }

  /** The intended setter stores the low four bits of `val` as the version and keeps bits 0, 1, 6 and 7. */
  lemma WithVersionIntendedSpec(b: bv8, val: bv8)
    ensures VersionBits(WithVersionIntended(b, val)) == val & 0x0F
    ensures WithVersionIntended(b, val) & 0xC3 == b & 0xC3
  {
  }
}
