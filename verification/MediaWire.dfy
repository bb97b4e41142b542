/**
 ARPM/1 on the wire: the stream description, the 24-byte record header, and the two ends' idea of them.
 Encode and HeaderBytes are the Rust producer's printers; ParseDescription and ParseHeader are the
 C++ consumer's parsers.
 */
module MediaWire {
  import opened Bytes
  import opened Nals
  import opened CodecConfig

  const HEADER_SIZE := 24
  const DESCRIPTION_SIZE := 24
  const ACCESS_UNIT_LIMIT := 0x40_0000
  const MAGIC: seq<byte> := [0x41, 0x52, 0x50, 0x4d]

  datatype Protocol = AndroidAuto | CarPlay
  datatype Plane = MainPlane | Cluster
  datatype Colorimetry = Bt601 | Bt709
  datatype ColorRange = Limited | Full

  datatype Description = Description(
    protocol: Protocol, plane: Plane, codec: Codec, colorimetry: Colorimetry, range: ColorRange, framing: Framing,
    width: u16, height: u16, fpsNum: u16, fpsDen: u16, session: u64)

  predicate LegalDescription(d: Description) {
    && d.session != 0
    && 0 < d.width <= 1920 && 0 < d.height <= 1080
    && 0 < d.fpsDen <= 1001
    && d.fpsDen <= d.fpsNum <= 60 * d.fpsDen
  }

  function Tags(d: Description): (r: seq<byte>)
    ensures |r| == 6
  {
    [if d.protocol.AndroidAuto? then 1 else 2, if d.plane.MainPlane? then 1 else 2, if d.codec.H264? then 1 else 2,
     if d.colorimetry.Bt601? then 1 else 2, if d.range.Limited? then 1 else 2, if d.framing.AnnexB? then 1 else 2]
  }

  function Encode(d: Description): (r: Option<seq<byte>>)
    ensures r.Some? ==> |r.value| == DESCRIPTION_SIZE
  {
    if !LegalDescription(d) then None
    else Some(Tags(d) + BigEndian(d.width, 2) + BigEndian(d.height, 2) + BigEndian(d.fpsNum, 2)
              + BigEndian(d.fpsDen, 2) + [0, 0] + BigEndian(d.session, 8))
  }

  function ParseDescription(bytes: seq<byte>): Option<Description> {
    if |bytes| != DESCRIPTION_SIZE || exists i :: 0 <= i < 6 && !(1 <= bytes[i] <= 2) then None
    else
      Spans();
      var d := Description(
        if bytes[0] == 1 then AndroidAuto else CarPlay, if bytes[1] == 1 then MainPlane else Cluster,
        if bytes[2] == 1 then H264 else H265, if bytes[3] == 1 then Bt601 else Bt709,
        if bytes[4] == 1 then Limited else Full, if bytes[5] == 1 then AnnexB else LengthPrefixed,
        FromBig(bytes[6..8]), FromBig(bytes[8..10]), FromBig(bytes[10..12]), FromBig(bytes[12..14]),
        FromBig(bytes[16..24]));
      if FromBig(bytes[14..16]) != 0 || !LegalDescription(d) then None else Some(d)
  }

  lemma EncodedFields(d: Description)
    requires Encode(d).Some?
    ensures var bytes := Encode(d).value;
            && bytes[..6] == Tags(d)
            && bytes[6..8] == BigEndian(d.width, 2) && bytes[8..10] == BigEndian(d.height, 2)
            && bytes[10..12] == BigEndian(d.fpsNum, 2) && bytes[12..14] == BigEndian(d.fpsDen, 2)
            && bytes[14..16] == [0, 0] && bytes[16..24] == BigEndian(d.session, 8)
  {
  }

  lemma EncodedNumbers(d: Description)
    requires Encode(d).Some?
    ensures var bytes := Encode(d).value;
            && FromBig(bytes[6..8]) == d.width && FromBig(bytes[8..10]) == d.height
            && FromBig(bytes[10..12]) == d.fpsNum && FromBig(bytes[12..14]) == d.fpsDen
            && FromBig(bytes[14..16]) == 0 && FromBig(bytes[16..24]) == d.session
  {
    Spans();
    EncodedFields(d);
    BigRoundTrip(d.width, 2);
    BigRoundTrip(d.height, 2);
    BigRoundTrip(d.fpsNum, 2);
    BigRoundTrip(d.fpsDen, 2);
    BigRoundTrip(d.session, 8);
    BigRoundTrip(0, 2);
    assert BigEndian(0, 2) == [0, 0];
  }

  /** What the producer prints is what the consumer parses. */
  lemma DescriptionRoundTrip(d: Description)
    requires Encode(d).Some?
    ensures ParseDescription(Encode(d).value) == Some(d)
  {
    hide FromBig, BigEndian;
    var bytes := Encode(d).value;
    EncodedNumbers(d);
    EncodedFields(d);
    assert forall i :: 0 <= i < 6 ==> bytes[i] == Tags(d)[i];
  }

  /** And the consumer accepts nothing the producer would not have printed. */
  lemma DescriptionOnto(bytes: seq<byte>)
    requires ParseDescription(bytes).Some?
    ensures Encode(ParseDescription(bytes).value) == Some(bytes)
  {
    hide FromBig;
    var d := ParseDescription(bytes).value;
    BigOnto(bytes[6..8]);
    BigOnto(bytes[8..10]);
    BigOnto(bytes[10..12]);
    BigOnto(bytes[12..14]);
    BigOnto(bytes[14..16]);
    BigOnto(bytes[16..24]);
    assert bytes[14..16] == BigEndian(0, 2) == [0, 0];
    assert forall i :: 0 <= i < 6 ==> 1 <= bytes[i] <= 2;
    assert bytes[..6] == Tags(d);
    assert bytes
        == bytes[..6] + bytes[6..8] + bytes[8..10] + bytes[10..12] + bytes[12..14] + bytes[14..16] + bytes[16..24];
  }

  datatype Kind = DescriptionRecord | ConfigRecord | AccessUnitRecord

  datatype Header = Header(kind: Kind, flags: byte, size: u32, sequence: u32, timestamp: u64)

  function KindTag(kind: Kind): byte {
    match kind
    case DescriptionRecord => 1
    case ConfigRecord => 2
    case AccessUnitRecord => 3
  }

  function HeaderBytes(h: Header): (r: seq<byte>)
    ensures |r| == HEADER_SIZE
  {
    MAGIC + [0, 1] + [KindTag(h.kind), h.flags]
    + BigEndian(h.size, 4) + BigEndian(h.sequence, 4) + BigEndian(h.timestamp, 8)
  }

  predicate LegalHeader(h: Header) {
    match h.kind
    case AccessUnitRecord => h.flags < 4 && 0 < h.size <= ACCESS_UNIT_LIMIT && h.timestamp != U64_MAX
    case DescriptionRecord => h.flags == 0 && h.timestamp == 0 && h.size == DESCRIPTION_SIZE
    case ConfigRecord => h.flags == 0 && h.timestamp == 0 && 0 < h.size <= CONFIG_LIMIT
  }

  function ParseHeader(bytes: seq<byte>): Option<Header> {
    if |bytes| != HEADER_SIZE || bytes[..4] != MAGIC || FromBig(bytes[4..6]) != 1 || !(1 <= bytes[6] <= 3) then None
    else
      Spans();
      var kind := if bytes[6] == 1 then DescriptionRecord else if bytes[6] == 2 then ConfigRecord else AccessUnitRecord;
      var h := Header(kind, bytes[7], FromBig(bytes[8..12]), FromBig(bytes[12..16]), FromBig(bytes[16..24]));
      if LegalHeader(h) then Some(h) else None
  }

  lemma HeaderFields(h: Header)
    ensures var bytes := HeaderBytes(h);
            && bytes[..4] == MAGIC && bytes[4..6] == [0, 1] && bytes[6] == KindTag(h.kind) && bytes[7] == h.flags
            && bytes[8..12] == BigEndian(h.size, 4) && bytes[12..16] == BigEndian(h.sequence, 4)
            && bytes[16..24] == BigEndian(h.timestamp, 8)
  {
    hide BigEndian;
  }

  lemma HeaderNumbers(h: Header)
    ensures FromBig([0, 1]) == 1
    ensures FromBig(BigEndian(h.size, 4)) == h.size
    ensures FromBig(BigEndian(h.sequence, 4)) == h.sequence
    ensures FromBig(BigEndian(h.timestamp, 8)) == h.timestamp
  {
    hide BigEndian, FromBig;
    Spans();
    U16IsBig(0, 1);
    BigRoundTrip(h.size, 4);
    BigRoundTrip(h.sequence, 4);
    BigRoundTrip(h.timestamp, 8);
  }

  /** The parser returns every header the printer may print for a legal record, and refuses the others. */
  lemma HeaderRoundTrip(h: Header)
    ensures ParseHeader(HeaderBytes(h)) == if LegalHeader(h) then Some(h) else None
  {
    hide FromBig, BigEndian, HeaderBytes;
    HeaderFields(h);
    HeaderNumbers(h);
  }
}
