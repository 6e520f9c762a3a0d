/**
 * The PSP packet view of the psp-packet crate: a borrowed buffer of at least
 * sixteen header bytes, read through fixed-offset getters. Byte 2 holds r in
 * its top two bits and crypt_offset in the low six; byte 3 holds, from the
 * most significant bit down, s, d, a four-bit version, vc and always1; spi and
 * iv are big-endian at bytes 4..8 and 8..16; the payload is the rest.
 */
module PspPacket {
  import opened Wrappers
  import opened Bytes

  /** The fixed part of the header, in bytes. */
  const MIN_SIZE: nat := 16

  /** A packet view over `buf`; only `New` builds one. */
  datatype PspPacket = PspPacket(buf: seq<byte>)

  predicate Valid(p: PspPacket) {
    |p.buf| >= MIN_SIZE
  }

  /** `PspPacket::new`: None when the buffer is shorter than the fixed header. */
  function New(buf: seq<byte>): (r: Option<PspPacket>)
    ensures r.Some? <==> |buf| >= MIN_SIZE
    ensures r.Some? ==> r.value.buf == buf && Valid(r.value)
  {
    if |buf| < MIN_SIZE then None else Some(PspPacket(buf))
  }

  function NextHdr(p: PspPacket): byte requires Valid(p) { p.buf[0] }
  function HdrExtLen(p: PspPacket): byte requires Valid(p) { p.buf[1] }
  function R(p: PspPacket): nat requires Valid(p) { p.buf[2] / 64 }
  function CryptOffset(p: PspPacket): nat requires Valid(p) { p.buf[2] % 64 }
  function S(p: PspPacket): nat requires Valid(p) { p.buf[3] / 128 }
  function D(p: PspPacket): nat requires Valid(p) { p.buf[3] / 64 % 2 }
  function Version(p: PspPacket): nat requires Valid(p) { p.buf[3] / 4 % 16 }
  function Vc(p: PspPacket): nat requires Valid(p) { p.buf[3] / 2 % 2 }
  function Always1(p: PspPacket): nat requires Valid(p) { p.buf[3] % 2 }
  function Spi(p: PspPacket): nat requires Valid(p) { BigEndian(p.buf[4..8]) }
  function Iv(p: PspPacket): nat requires Valid(p) { BigEndian(p.buf[8..16]) }
  function Payload(p: PspPacket): seq<byte> requires Valid(p) { p.buf[MIN_SIZE..] }
  function Packet(p: PspPacket): seq<byte> { p.buf }

  /** The header fields as values, each within its bit width. */
  datatype PspFields = PspFields(
    nextHdr: byte, hdrExtLen: byte, r: nat, cryptOffset: nat,
    s: nat, d: nat, version: nat, vc: nat, always1: nat, spi: nat, iv: nat)

  predicate FieldsInRange(f: PspFields) {
    f.r < 4 && f.cryptOffset < 64 && f.s < 2 && f.d < 2 && f.version < 16
    && f.vc < 2 && f.always1 < 2 && f.spi < Pow256(4) && f.iv < Pow256(8)
  }

  /** Every getter of a packet, gathered. */
  function Fields(p: PspPacket): (f: PspFields)
    requires Valid(p)
    ensures FieldsInRange(f)
  {
    PspFields(NextHdr(p), HdrExtLen(p), R(p), CryptOffset(p), S(p), D(p),
              Version(p), Vc(p), Always1(p), Spi(p), Iv(p))
  }

  /** The bytes a packet with fields `f` and payload `payload` is made of. */
  function Encode(f: PspFields, payload: seq<byte>): (buf: seq<byte>)
    requires FieldsInRange(f)
    ensures |buf| == MIN_SIZE + |payload|
  {
    [f.nextHdr, f.hdrExtLen, f.r * 64 + f.cryptOffset,
     f.s * 128 + f.d * 64 + f.version * 4 + f.vc * 2 + f.always1]
    + ToBigEndian(f.spi, 4) + ToBigEndian(f.iv, 8) + payload
  }

  /** Byte 3 packs s, d, version, vc and always1, and each reads back. */
  lemma FlagsByte(s: nat, d: nat, version: nat, vc: nat, always1: nat)
    requires s < 2 && d < 2 && version < 16 && vc < 2 && always1 < 2
    ensures var b := s * 128 + d * 64 + version * 4 + vc * 2 + always1;
            b < 256 && b / 128 == s && b / 64 % 2 == d && b / 4 % 16 == version
            && b / 2 % 2 == vc && b % 2 == always1
  {
    var b := s * 128 + d * 64 + version * 4 + vc * 2 + always1;
    DivModUnique(b, 128, s, d * 64 + version * 4 + vc * 2 + always1);
    DivModUnique(b, 64, s * 2 + d, version * 4 + vc * 2 + always1);
    DivModUnique(s * 2 + d, 2, s, d);
    DivModUnique(b, 4, s * 32 + d * 16 + version, vc * 2 + always1);
    DivModUnique(s * 32 + d * 16 + version, 16, s * 2 + d, version);
    DivModUnique(b, 2, s * 64 + d * 32 + version * 2 + vc, always1);
    DivModUnique(s * 64 + d * 32 + version * 2 + vc, 2, s * 32 + d * 16 + version, vc);
  }

  /** Any byte is the packing of its five flag fields. */
  lemma FlagsOfByte(b: byte)
    ensures b == b / 128 * 128 + b / 64 % 2 * 64 + b / 4 % 16 * 4 + b / 2 % 2 * 2 + b % 2
  {
    var h := b / 2;
    var q := h / 2;
    var v := q / 16;
    assert b == h * 2 + b % 2;
    assert h == q * 2 + h % 2;
    assert q == v * 16 + q % 16;
    DivModUnique(b, 4, q, b % 4);
    DivModUnique(b, 64, v, b % 64);
    DivModUnique(b, 128, v / 2, b % 128);
    assert b / 64 % 2 == v % 2;
    assert v == v / 2 * 2 + v % 2;
  }

  /** Reading a packet built from fields and a payload gives them back. */
  lemma FieldsOfEncode(f: PspFields, payload: seq<byte>)
    requires FieldsInRange(f)
    ensures var buf := Encode(f, payload);
            New(buf) == Some(PspPacket(buf))
            && Fields(PspPacket(buf)) == f && Payload(PspPacket(buf)) == payload
  {
    var buf := Encode(f, payload);
    var p := PspPacket(buf);
    DivModUnique(buf[2], 64, f.r, f.cryptOffset);
    FlagsByte(f.s, f.d, f.version, f.vc, f.always1);
    assert buf[4..8] == ToBigEndian(f.spi, 4);
    assert buf[8..16] == ToBigEndian(f.iv, 8);
    BigEndianOfToBigEndian(f.spi, 4);
    BigEndianOfToBigEndian(f.iv, 8);
    assert buf[MIN_SIZE..] == payload;
  }

  /** Every packet is the encoding of its own fields and payload. */
  lemma EncodeOfFields(p: PspPacket)
    requires Valid(p)
    ensures Encode(Fields(p), Payload(p)) == Packet(p)
  {
    var f := Fields(p);
    var buf := Encode(f, Payload(p));
    ToBigEndianOfBigEndian(p.buf[4..8]);
    ToBigEndianOfBigEndian(p.buf[8..16]);
    FlagsOfByte(p.buf[3]);
    assert buf[..4] == p.buf[..4];
    assert buf[4..8] == p.buf[4..8];
    assert buf[8..16] == p.buf[8..16];
    assert buf == buf[..4] + buf[4..8] + buf[8..16] + buf[16..];
    assert p.buf == p.buf[..4] + p.buf[4..8] + p.buf[8..16] + p.buf[16..];
  }

  /** The 40-byte buffer of the header test: sixteen header bytes and a 24-byte payload. */
  const TEST_HEADER: seq<byte> := [
    0x12, 0x23, 0x34, 0x56, 0x00, 0x00, 0x00, 0x03,
    0x01, 0x02, 0x03, 0x04, 0x05, 0x06, 0x07, 0x08]
  const TEST_PAYLOAD: seq<byte> := [
    0x09, 0x0A, 0x0B, 0x0C, 0x0D, 0x0E, 0x0F, 0x00,
    0x01, 0x02, 0x03, 0x04, 0x05, 0x06, 0x07, 0x08,
    0x01, 0x02, 0x03, 0x04, 0x05, 0x06, 0x07, 0x08]
  const TEST_BUF: seq<byte> := TEST_HEADER + TEST_PAYLOAD

  /** Four bytes read big-endian. */
  lemma BigEndian4(w: seq<byte>)
    requires |w| == 4
    ensures BigEndian(w) == (((w[0] as int) * 256 + w[1]) * 256 + w[2]) * 256 + w[3]
  {
    var w1, w2, w3 := w[..1], w[..2], w[..3];
    assert w3[..2] == w2 && w2[..1] == w1 && w1[..0] == [];
    assert BigEndian(w1) == w[0];
    assert BigEndian(w2) == (w[0] as int) * 256 + w[1];
    assert BigEndian(w3) == BigEndian(w2) * 256 + w[2];
  }

  /** Eight bytes read big-endian: the high four, then the low four. */
  lemma BigEndian8(w: seq<byte>)
    requires |w| == 8
    ensures BigEndian(w) == BigEndian(w[..4]) * Pow256(4) + BigEndian(w[4..])
  {
    assert w == w[..4] + w[4..];
    BigEndianAppend(w[..4], w[4..]);
  }

  lemma TestSpi()
    ensures BigEndian(TEST_BUF[4..8]) == 3
  {
    var w := TEST_BUF[4..8];
    assert w == TEST_HEADER[4..8];
    assert w[0] == 0 && w[1] == 0 && w[2] == 0 && w[3] == 3;
    BigEndian4(w);
  }

  lemma TestIv()
    ensures BigEndian(TEST_BUF[8..16]) == 0x0102030405060708
  {
    var w := TEST_BUF[8..16];
    assert w == TEST_HEADER[8..16];
    assert w[0] == 1 && w[1] == 2 && w[2] == 3 && w[3] == 4;
    assert w[4] == 5 && w[5] == 6 && w[6] == 7 && w[7] == 8;
    BigEndian8(w);
    BigEndian4(w[..4]);
    BigEndian4(w[4..]);
  }

  /** The header test: spi 3, iv 0x0102030405060708, a 24-byte payload in a 40-byte packet. */
  lemma HeaderTestVector()
    ensures New(TEST_BUF).Some?
    ensures var p := New(TEST_BUF).value;
            Spi(p) == 3 && Iv(p) == 0x0102030405060708
            && |Payload(p)| == 24 && |Packet(p)| == 40
  {
    TestSpi();
    TestIv();
  }
}
