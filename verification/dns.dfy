/**
 * The DNS message parsers of mydns: the fixed 12-byte header of section 4.1.1
 * of RFC 1035 and the question entry of section 4.1.2, whose name is the
 * length-prefixed label encoding of section 3.1.
 */
module Dns {
  import opened Wrappers
  import opened Bytes
  import opened Text

  datatype DnsHeader = DnsHeader(id: nat, flags: nat, qdcount: nat, ancount: nat, nscount: nat, arcount: nat)

  datatype ParseError = InvalidHeader

  /** size_of::<DnsHeader>(): six 16-bit fields. */
  const HEADER_SIZE: nat := 12

  predicate HeaderInRange(h: DnsHeader) {
    h.id < 0x1_0000 && h.flags < 0x1_0000 && h.qdcount < 0x1_0000
    && h.ancount < 0x1_0000 && h.nscount < 0x1_0000 && h.arcount < 0x1_0000
  }

  /** The wire form of a header: the six fields as consecutive big-endian u16. */
  function EncodeHeader(h: DnsHeader): (s: seq<byte>)
    requires HeaderInRange(h)
    ensures |s| == HEADER_SIZE
  {
    ToBigEndian(h.id, 2) + ToBigEndian(h.flags, 2) + ToBigEndian(h.qdcount, 2)
    + ToBigEndian(h.ancount, 2) + ToBigEndian(h.nscount, 2) + ToBigEndian(h.arcount, 2)
  }

  /** DnsHeader::parse as a function of the buffer. */
  function DecodeHeader(buf: seq<byte>): (r: Result<(DnsHeader, nat), ParseError>)
    ensures r.Err? <==> |buf| < HEADER_SIZE
    ensures r.Err? ==> r.error == InvalidHeader
    ensures r.Ok? ==> r.value.1 == HEADER_SIZE && HeaderInRange(r.value.0)
  {
    if |buf| < HEADER_SIZE then Err(InvalidHeader)
    else Ok((DnsHeader(BE16(buf, 0), BE16(buf, 2), BE16(buf, 4), BE16(buf, 6), BE16(buf, 8), BE16(buf, 10)), HEADER_SIZE))
  }

  /** DnsHeader::parse: a length check, then six reads through an advancing cursor. */
  method ParseHeader(buf: seq<byte>) returns (r: Result<(DnsHeader, nat), ParseError>)
    ensures r == DecodeHeader(buf)
  {
    var hdr := DnsHeader(0, 0, 0, 0, 0, 0);
    if |buf| < HEADER_SIZE {
      return Err(InvalidHeader);
    }
    var pos := buf;
    hdr := hdr.(id := BE16(pos, 0));
    pos := pos[2..];
    hdr := hdr.(flags := BE16(pos, 0));
    pos := pos[2..];
    hdr := hdr.(qdcount := BE16(pos, 0));
    pos := pos[2..];
    hdr := hdr.(ancount := BE16(pos, 0));
    pos := pos[2..];
    hdr := hdr.(nscount := BE16(pos, 0));
    pos := pos[2..];
    hdr := hdr.(arcount := BE16(pos, 0));
    r := Ok((hdr, HEADER_SIZE));
  }

  lemma BE16OfEncoding(buf: seq<byte>, at: nat, v: nat)
    requires v < 0x1_0000 && at + 2 <= |buf| && buf[at..at + 2] == ToBigEndian(v, 2)
    ensures BE16(buf, at) == v
  {
    BigEndianOfToBigEndian(v, 2);
  }

  /** Parsing an encoded header, whatever follows it, gives the header back and 12 bytes consumed. */
  lemma HeaderRoundTrip(h: DnsHeader, rest: seq<byte>)
    requires HeaderInRange(h)
    ensures DecodeHeader(EncodeHeader(h) + rest) == Ok((h, HEADER_SIZE))
  {
    var buf := EncodeHeader(h) + rest;
    BE16OfEncoding(buf, 0, h.id);
    BE16OfEncoding(buf, 2, h.flags);
    BE16OfEncoding(buf, 4, h.qdcount);
    BE16OfEncoding(buf, 6, h.ancount);
    BE16OfEncoding(buf, 8, h.nscount);
    BE16OfEncoding(buf, 10, h.arcount);
  }

  /** The header test vector: 40500, 288, 1, 0, 0, 1, with size equal to the buffer length. */
  lemma HeaderTestVector()
    ensures var h := DnsHeader(40500, 288, 1, 0, 0, 1);
            var buf := [0x9E, 0x34, 0x01, 0x20, 0x00, 0x01, 0x00, 0x00, 0x00, 0x00, 0x00, 0x01];
            DecodeHeader(buf) == Ok((h, |buf|))
  {
    var h := DnsHeader(40500, 288, 1, 0, 0, 1);
    HeaderRoundTrip(h, []);
    assert EncodeHeader(h) + [] == [0x9E, 0x34, 0x01, 0x20, 0x00, 0x01, 0x00, 0x00, 0x00, 0x00, 0x00, 0x01];
  }

  // ------------------------------------------------------------------
  // Questions
  // ------------------------------------------------------------------

  /** A question: `name` holds the bytes of the joined name string (its UTF-8 encoding). */
  datatype DnsQuestion = DnsQuestion(name: seq<byte>, qtype: nat, qclass: nat)

  /** Continuation bytes 80..BF, or the narrower range `lo..hi`, at position `i` of `s`. */
  predicate ContIn(s: seq<byte>, i: nat, lo: byte, hi: byte) {
    i < |s| && lo <= s[i] <= hi
  }

  /** The length of the well-formed UTF-8 sequence at the start of `s` (RFC 3629, section 4), or 0. */
  function Utf8SeqLen(s: seq<byte>): (n: nat)
    ensures n <= 4 && n <= |s|
  {
    if s == [] then 0
    else
      var b := s[0];
      if b <= 0x7F then 1
      else if 0xC2 <= b <= 0xDF then (if ContIn(s, 1, 0x80, 0xBF) then 2 else 0)
      else if b == 0xE0 then (if ContIn(s, 1, 0xA0, 0xBF) && ContIn(s, 2, 0x80, 0xBF) then 3 else 0)
      else if (0xE1 <= b <= 0xEC) || b == 0xEE || b == 0xEF then
        (if ContIn(s, 1, 0x80, 0xBF) && ContIn(s, 2, 0x80, 0xBF) then 3 else 0)
      else if b == 0xED then (if ContIn(s, 1, 0x80, 0x9F) && ContIn(s, 2, 0x80, 0xBF) then 3 else 0)
      else if b == 0xF0 then
        (if ContIn(s, 1, 0x90, 0xBF) && ContIn(s, 2, 0x80, 0xBF) && ContIn(s, 3, 0x80, 0xBF) then 4 else 0)
      else if 0xF1 <= b <= 0xF3 then
        (if ContIn(s, 1, 0x80, 0xBF) && ContIn(s, 2, 0x80, 0xBF) && ContIn(s, 3, 0x80, 0xBF) then 4 else 0)
      else if b == 0xF4 then
        (if ContIn(s, 1, 0x80, 0x8F) && ContIn(s, 2, 0x80, 0xBF) && ContIn(s, 3, 0x80, 0xBF) then 4 else 0)
      else 0
  }

  /** The bytes are well-formed UTF-8, so `String::from_utf8` accepts them. */
  predicate ValidUtf8(s: seq<byte>)
    decreases |s|
  {
    s == [] || (Utf8SeqLen(s) > 0 && ValidUtf8(s[Utf8SeqLen(s)..]))
  }

  /** ASCII bytes are well-formed UTF-8. */
  lemma {:induction false} AsciiIsUtf8(s: seq<byte>)
    requires forall i :: 0 <= i < |s| ==> s[i] <= 0x7F
    ensures ValidUtf8(s)
    decreases |s|
  {
    if s != [] {
      AsciiIsUtf8(s[1..]);
    }
  }

  /**
   * The labels of the name that starts at `pos` and the position just after its
   * zero octet; None when the buffer ends before the name does (the source
   * then indexes or slices out of bounds).
   */
  function Labels(buf: seq<byte>, pos: nat): (r: Option<(seq<seq<byte>>, nat)>)
    ensures r.Some? ==> pos < r.value.1 <= |buf|
    decreases |buf| - pos
  {
    if pos >= |buf| then None
    else if buf[pos] == 0 then Some(([], pos + 1))
    else if pos + 1 + buf[pos] > |buf| then None
    else match Labels(buf, pos + 1 + buf[pos])
      case None => None
      case Some(rest) => Some(([buf[pos + 1..pos + 1 + buf[pos]]] + rest.0, rest.1))
  }

  /**
   * The buffers DnsQuestion::parse handles without panicking: a complete name
   * whose labels are UTF-8, followed by the two 16-bit fields.
   */
  predicate QuestionWellFormed(buf: seq<byte>) {
    && Labels(buf, 0).Some?
    && Labels(buf, 0).value.1 + 4 <= |buf|
    && forall i :: 0 <= i < |Labels(buf, 0).value.0| ==> ValidUtf8(Labels(buf, 0).value.0[i])
  }

  const DOT: byte := 0x2E

  /** DnsQuestion::parse as a function: labels joined with ".", then qtype and qclass. */
  function DecodeQuestion(buf: seq<byte>): (r: (DnsQuestion, nat))
    requires QuestionWellFormed(buf)
    ensures r.1 <= |buf| && r.1 == Labels(buf, 0).value.1 + 4
  {
    var (labels, end) := Labels(buf, 0).value;
    (DnsQuestion(Join(labels, [DOT]), BE16(buf, end), BE16(buf, end + 2)), end + 4)
  }

  /** One turn of the label loop: the label at `pos` moves from the labels still to read to those read. */
  lemma LabelsLoopStep(buf: seq<byte>, pos: nat, parts: seq<seq<byte>>, labels: seq<seq<byte>>, end: nat)
    requires Labels(buf, pos).Some? && buf[pos] != 0
    requires labels == parts + Labels(buf, pos).value.0 && end == Labels(buf, pos).value.1
    ensures pos + 1 + buf[pos] <= |buf| && Labels(buf, pos + 1 + buf[pos]).Some?
    ensures labels == (parts + [buf[pos + 1..pos + 1 + buf[pos]]]) + Labels(buf, pos + 1 + buf[pos]).value.0
    ensures end == Labels(buf, pos + 1 + buf[pos]).value.1
  {
    var rest := Labels(buf, pos + 1 + buf[pos]).value;
    assert Labels(buf, pos).value.0 == [buf[pos + 1..pos + 1 + buf[pos]]] + rest.0;
  }

  /** The label loop ends at the zero octet, just before the two 16-bit fields. */
  lemma LabelsLoopEnd(buf: seq<byte>, pos: nat)
    requires Labels(buf, pos).Some? && buf[pos] == 0
    ensures Labels(buf, pos).value == ([], pos + 1)
  {
  }

  /** DnsQuestion::parse: the label loop with a moving position, then two big-endian reads. */
  method ParseQuestion(buf: seq<byte>) returns (q: DnsQuestion, size: nat)
    requires QuestionWellFormed(buf)
    ensures (q, size) == DecodeQuestion(buf)
  {
    ghost var labels := Labels(buf, 0).value.0;
    ghost var end := Labels(buf, 0).value.1;
    var parts: seq<seq<byte>> := [];
    var pos: nat := 0;
    assert labels == parts + Labels(buf, pos).value.0;
    while true
      invariant Labels(buf, pos).Some?
      invariant labels == parts + Labels(buf, pos).value.0
      invariant end == Labels(buf, pos).value.1
      decreases |buf| - pos
    {
      var count := buf[pos];
      if count == 0 {
        LabelsLoopEnd(buf, pos);
        pos := pos + 1;
        break;
      }
      LabelsLoopStep(buf, pos, parts, labels, end);
      var lbl := buf[pos + 1..pos + 1 + count];
      parts := parts + [lbl];
      pos := pos + 1 + count;
    }
    assert parts == labels && pos == end;
    var name := Join(parts, [DOT]);
    var qtype := BE16(buf, pos);
    pos := pos + 2;
    var qclass := BE16(buf, pos);
    pos := pos + 2;
    q, size := DnsQuestion(name, qtype, qclass), pos;
  }

  /** The section 3.1 encoding of a name: each label prefixed by its length, then a zero octet. */
  function EncodeName(labels: seq<seq<byte>>): (s: seq<byte>)
    requires forall i :: 0 <= i < |labels| ==> 1 <= |labels[i]| <= 255
    ensures |s| == NameLength(labels)
    decreases |labels|
  {
    if labels == [] then [0]
    else [|labels[0]| as byte] + labels[0] + EncodeName(labels[1..])
  }

  /** The encoded length: one length octet per label, the label bytes, and the final zero. */
  function NameLength(labels: seq<seq<byte>>): nat
    decreases |labels|
  {
    if labels == [] then 1 else 1 + |labels[0]| + NameLength(labels[1..])
  }

  /** A slice of a slice is a slice. */
  lemma SubSlice(buf: seq<byte>, pos: nat, len: nat, a: nat, b: nat)
    requires pos + len <= |buf| && a <= b <= len
    ensures buf[pos..pos + len][a..b] == buf[pos + a..pos + b]
  {
    var x, y := buf[pos..pos + len][a..b], buf[pos + a..pos + b];
    forall i | 0 <= i < b - a ensures x[i] == y[i] {
      assert x[i] == buf[pos + a + i];
    }
  }

  /** The first label of an encoded name and the encoding of the rest. */
  lemma EncodeNameCons(labels: seq<seq<byte>>)
    requires forall i :: 0 <= i < |labels| ==> 1 <= |labels[i]| <= 255
    requires labels != []
    ensures var enc, n := EncodeName(labels), |labels[0]|;
            && enc[0] == n
            && enc[1..1 + n] == labels[0]
            && enc[1 + n..] == EncodeName(labels[1..])
            && NameLength(labels) == 1 + n + NameLength(labels[1..])
  {
    var n := |labels[0]|;
    var enc := EncodeName(labels);
    assert enc == [n as byte] + labels[0] + EncodeName(labels[1..]);
  }

  /** A non-zero length octet followed by that many bytes and a complete name reads as one more label. */
  lemma LabelsCons(buf: seq<byte>, pos: nat, first: seq<byte>, rest: seq<seq<byte>>, end: nat)
    requires pos < |buf| && buf[pos] as int == |first| && first != []
    requires pos + 1 + |first| <= |buf| && buf[pos + 1..pos + 1 + |first|] == first
    requires Labels(buf, pos + 1 + |first|) == Some((rest, end))
    ensures Labels(buf, pos) == Some(([first] + rest, end))
  {
  }

  /** An encoded name in a buffer starts with the length octet and the bytes of its first label. */
  lemma EncodedHead(buf: seq<byte>, pos: nat, labels: seq<seq<byte>>)
    requires forall i :: 0 <= i < |labels| ==> 1 <= |labels[i]| <= 255
    requires pos + NameLength(labels) <= |buf|
    requires buf[pos..pos + NameLength(labels)] == EncodeName(labels)
    requires labels != []
    ensures pos < |buf| && buf[pos] == |labels[0]| && |labels[0]| != 0
    ensures pos + 1 + |labels[0]| + NameLength(labels[1..]) == pos + NameLength(labels)
    ensures buf[pos + 1..pos + 1 + |labels[0]|] == labels[0]
  {
    var len := NameLength(labels);
    EncodeNameCons(labels);
    SubSlice(buf, pos, len, 0, 1);
    SubSlice(buf, pos, len, 1, 1 + |labels[0]|);
  }

  /** After the first label of an encoded name comes the encoding of the remaining labels. */
  lemma EncodedRest(buf: seq<byte>, pos: nat, labels: seq<seq<byte>>)
    requires forall i :: 0 <= i < |labels| ==> 1 <= |labels[i]| <= 255
    requires pos + NameLength(labels) <= |buf|
    requires buf[pos..pos + NameLength(labels)] == EncodeName(labels)
    requires labels != []
    ensures forall i :: 0 <= i < |labels[1..]| ==> 1 <= |labels[1..][i]| <= 255
    ensures pos + 1 + |labels[0]| + NameLength(labels[1..]) == pos + NameLength(labels)
    ensures buf[pos + 1 + |labels[0]|..pos + 1 + |labels[0]| + NameLength(labels[1..])] == EncodeName(labels[1..])
  {
    var tail := labels[1..];
    forall i | 0 <= i < |tail| ensures 1 <= |tail[i]| <= 255 {
      assert tail[i] == labels[i + 1];
    }
    EncodeNameCons(labels);
    SubSlice(buf, pos, NameLength(labels), 1 + |labels[0]|, NameLength(labels));
  }

  /** Reading the labels of an encoded name recovers the labels and ends right after it. */
  lemma {:induction false} LabelsOfEncoding(buf: seq<byte>, pos: nat, labels: seq<seq<byte>>)
    requires forall i :: 0 <= i < |labels| ==> 1 <= |labels[i]| <= 255
    requires pos + NameLength(labels) <= |buf|
    requires buf[pos..pos + NameLength(labels)] == EncodeName(labels)
    ensures Labels(buf, pos) == Some((labels, pos + NameLength(labels)))
    decreases |labels|
  {
    if labels == [] {
      assert buf[pos..pos + 1][0] == 0;
    } else {
      var next := pos + 1 + |labels[0]|;
      EncodedHead(buf, pos, labels);
      EncodedRest(buf, pos, labels);
      LabelsOfEncoding(buf, next, labels[1..]);
      LabelsCons(buf, pos, labels[0], labels[1..], pos + NameLength(labels));
      assert [labels[0]] + labels[1..] == labels;
    }
  }

  /** A question in wire form: the encoded name, qtype and qclass. */
  function EncodeQuestion(labels: seq<seq<byte>>, qtype: nat, qclass: nat): seq<byte>
    requires forall i :: 0 <= i < |labels| ==> 1 <= |labels[i]| <= 255
    requires qtype < 0x1_0000 && qclass < 0x1_0000
  {
    EncodeName(labels) + ToBigEndian(qtype, 2) + ToBigEndian(qclass, 2)
  }

  /** Where the name and the two fields lie in an encoded question. */
  lemma QuestionParts(labels: seq<seq<byte>>, qtype: nat, qclass: nat, rest: seq<byte>)
    requires forall i :: 0 <= i < |labels| ==> 1 <= |labels[i]| <= 255
    requires qtype < 0x1_0000 && qclass < 0x1_0000
    ensures var buf, end := EncodeQuestion(labels, qtype, qclass) + rest, NameLength(labels);
            && end + 4 <= |buf|
            && buf[0..end] == EncodeName(labels)
            && buf[end..end + 2] == ToBigEndian(qtype, 2)
            && buf[end + 2..end + 4] == ToBigEndian(qclass, 2)
  {
    var name, t, c := EncodeName(labels), ToBigEndian(qtype, 2), ToBigEndian(qclass, 2);
    var buf := EncodeQuestion(labels, qtype, qclass) + rest;
    assert buf == name + t + c + rest;
  }

  /**
   * Parsing an encoded question, whatever follows it, is well defined and gives
   * the labels joined by ".", the two fields, and the encoded length as size.
   */
  lemma QuestionRoundTrip(labels: seq<seq<byte>>, qtype: nat, qclass: nat, rest: seq<byte>)
    requires forall i :: 0 <= i < |labels| ==> 1 <= |labels[i]| <= 255 && ValidUtf8(labels[i])
    requires qtype < 0x1_0000 && qclass < 0x1_0000
    ensures var buf := EncodeQuestion(labels, qtype, qclass) + rest;
            && QuestionWellFormed(buf)
            && DecodeQuestion(buf) == (DnsQuestion(Join(labels, [DOT]), qtype, qclass), NameLength(labels) + 4)
  {
    var buf := EncodeQuestion(labels, qtype, qclass) + rest;
    var end := NameLength(labels);
    QuestionParts(labels, qtype, qclass, rest);
    LabelsOfEncoding(buf, 0, labels);
    BE16OfEncoding(buf, end, qtype);
    BE16OfEncoding(buf, end + 2, qclass);
    WellFormedOfLabels(buf, labels, end);
  }

  /** A buffer whose name reads as UTF-8 labels and leaves room for the two fields is well formed. */
  lemma WellFormedOfLabels(buf: seq<byte>, labels: seq<seq<byte>>, end: nat)
    requires Labels(buf, 0) == Some((labels, end)) && end + 4 <= |buf|
    requires forall i :: 0 <= i < |labels| ==> ValidUtf8(labels[i])
    ensures QuestionWellFormed(buf)
  {
  }

  /** The encoded name of the test vector: www.google.com. */
  const TEST_NAME_WIRE: seq<byte> := [3, 0x77, 0x77, 0x77, 6, 0x67, 0x6F, 0x6F, 0x67, 0x6C, 0x65, 3, 0x63, 0x6F, 0x6D, 0]

  /** The question of the test vector: the name, then type 0x1234 and class 0x5678. */
  const TEST_QUESTION: seq<byte> := TEST_NAME_WIRE + [0x12, 0x34, 0x56, 0x78]

  /** The bytes of "www.google.com". */
  const TEST_NAME: seq<byte> := [0x77, 0x77, 0x77, 0x2E, 0x67, 0x6F, 0x6F, 0x67, 0x6C, 0x65, 0x2E, 0x63, 0x6F, 0x6D]

  const WWW: seq<byte> := [0x77, 0x77, 0x77]
  const GOOGLE: seq<byte> := [0x67, 0x6F, 0x6F, 0x67, 0x6C, 0x65]
  const COM: seq<byte> := [0x63, 0x6F, 0x6D]
  const TEST_LABELS: seq<seq<byte>> := [WWW, GOOGLE, COM]

  // ------------------------------------------------------------------
  // Scaffolding for QuestionTestVector: the test vector's labels, their
  // encoding and their joined name, each computed in a small step
  // ------------------------------------------------------------------

  lemma WwwValid()
    ensures ValidUtf8(WWW)
  {
    assert forall i :: 0 <= i < |WWW| ==> WWW[i] <= 0x7F;
    AsciiIsUtf8(WWW);
  }

  lemma GoogleValid()
    ensures ValidUtf8(GOOGLE)
  {
    assert forall i :: 0 <= i < |GOOGLE| ==> GOOGLE[i] <= 0x7F;
    AsciiIsUtf8(GOOGLE);
  }

  lemma ComValid()
    ensures ValidUtf8(COM)
  {
    assert forall i :: 0 <= i < |COM| ==> COM[i] <= 0x7F;
    AsciiIsUtf8(COM);
  }

  lemma TestLabelsValid()
    ensures forall i :: 0 <= i < |TEST_LABELS| ==> 1 <= |TEST_LABELS[i]| <= 255 && ValidUtf8(TEST_LABELS[i])
  {
    WwwValid();
    GoogleValid();
    ComValid();
    forall i | 0 <= i < |TEST_LABELS| ensures 1 <= |TEST_LABELS[i]| <= 255 && ValidUtf8(TEST_LABELS[i]) {
      if i == 0 {
        assert TEST_LABELS[i] == WWW;
      } else if i == 1 {
        assert TEST_LABELS[i] == GOOGLE;
      } else {
        assert TEST_LABELS[i] == COM;
      }
    }
  }

  lemma EncodeCom()
    ensures EncodeName([COM]) == [3] + COM + [0]
  {
    assert [COM][1..] == [];
  }

  lemma EncodeGoogleCom()
    ensures EncodeName([GOOGLE, COM]) == [6] + GOOGLE + [3] + COM + [0]
  {
    EncodeCom();
    assert [GOOGLE, COM][1..] == [COM];
  }

  lemma TestNameEncoding()
    ensures EncodeName(TEST_LABELS) == TEST_NAME_WIRE
  {
    EncodeGoogleCom();
    assert TEST_LABELS[1..] == [GOOGLE, COM];
    assert EncodeName(TEST_LABELS) == [3] + WWW + [6] + GOOGLE + [3] + COM + [0];
  }

  /** An encoded question is the encoded name followed by the two fields' high and low bytes. */
  lemma EncodeQuestionBytes(labels: seq<seq<byte>>, qtype: nat, qclass: nat)
    requires forall i :: 0 <= i < |labels| ==> 1 <= |labels[i]| <= 255
    requires qtype < 0x1_0000 && qclass < 0x1_0000
    ensures EncodeQuestion(labels, qtype, qclass) + []
            == EncodeName(labels) + [qtype / 256, qtype % 256, qclass / 256, qclass % 256]
  {
    ToBigEndian2(qtype);
    ToBigEndian2(qclass);
  }

  lemma TestEncoding()
    ensures EncodeQuestion(TEST_LABELS, 0x1234, 0x5678) + [] == TEST_QUESTION
    ensures NameLength(TEST_LABELS) == 16
  {
    TestLabelsValid();
    TestNameEncoding();
    EncodeQuestionBytes(TEST_LABELS, 0x1234, 0x5678);
    assert [0x1234 / 256, 0x1234 % 256, 0x5678 / 256, 0x5678 % 256] == [0x12, 0x34, 0x56, 0x78];
  }

  lemma JoinCom()
    ensures Join([COM], [DOT]) == COM
  {
  }

  lemma JoinGoogleCom()
    ensures Join([GOOGLE, COM], [DOT]) == GOOGLE + [DOT] + COM
  {
    JoinCom();
    assert [GOOGLE, COM][1..] == [COM];
  }

  lemma TestName()
    ensures Join(TEST_LABELS, [DOT]) == TEST_NAME
  {
    JoinGoogleCom();
    assert TEST_LABELS[1..] == [GOOGLE, COM];
    assert Join(TEST_LABELS, [DOT]) == WWW + [DOT] + GOOGLE + [DOT] + COM;
  }

  /** The question test vector parses to www.google.com, 0x1234, 0x5678, and size 20. */
  lemma QuestionTestVector()
    ensures QuestionWellFormed(TEST_QUESTION)
    ensures DecodeQuestion(TEST_QUESTION) == (DnsQuestion(TEST_NAME, 0x1234, 0x5678), 20)
  {
    TestLabelsValid();
    TestEncoding();
    TestName();
    QuestionRoundTrip(TEST_LABELS, 0x1234, 0x5678, []);
  }
}
