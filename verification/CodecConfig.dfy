/**
 Decoder configuration records (avcC and hvcC of ISO/IEC 14496-15) as both ends of ARPM/1 check them:
 the Rust producer through a stateful reader, the C++ consumer through a moving offset.
 */
module CodecConfig {
  import opened Bytes
  import opened Nals

  const CONFIG_LIMIT := 0x1_0000

  /** How far a record has been read, how many units it held so far, and which parameter bits they carried. */
  datatype Cursor = Cursor(offset: nat, count: nat, seen: set<nat>)

  /** One length-prefixed unit of the expected type. */
  function TakeOne(bytes: seq<byte>, c: Cursor, kind: nat, codec: Codec): (r: Option<Cursor>)
    requires c.offset <= |bytes|
    ensures r.Some? ==> c.offset < r.value.offset <= |bytes|
  {
    if c.count + 1 > NAL_LIMIT || |bytes| - c.offset < 2 then None
    else
      var size := U16(bytes[c.offset], bytes[c.offset + 1]);
      var begin := c.offset + 2;
      if size > |bytes| - begin || NalType(bytes[begin..begin + size], codec) != Some(kind) then None
      else Some(Cursor(begin + size, c.count + 1, c.seen + Bits(bytes[begin..begin + size], codec)))
  }

  /** A run of n such units. */
  function Take(bytes: seq<byte>, c: Cursor, n: nat, kind: nat, codec: Codec): (r: Option<Cursor>)
    requires c.offset <= |bytes|
    ensures r.Some? ==> c.offset <= r.value.offset <= |bytes|
    decreases n
  {
    if n == 0 then Some(c)
    else match TakeOne(bytes, c, kind, codec)
      case None => None
      case Some(next) => Take(bytes, next, n - 1, kind, codec)
  }

  /** The optional high-profile tail: three fields with reserved bits, then SPS extensions. */
  function TakeExtension(bytes: seq<byte>, c: Cursor): Option<Cursor>
    requires 6 <= c.offset <= |bytes|
  {
    var o := c.offset;
    if o == |bytes| then Some(c)
    else if bytes[1] !in {100, 110, 122, 144} || |bytes| - o < 4
            || bytes[o] < 252 || bytes[o + 1] < 248 || bytes[o + 2] < 248 then None
    else Take(bytes, c.(offset := o + 4), bytes[o + 3], 13, H264)
  }

  function Avc(bytes: seq<byte>): Option<Cursor>
    requires |bytes| >= 7
  {
    if bytes[4] < 252 || bytes[5] < 224 then None
    else match Take(bytes, Cursor(6, 0, {}), bytes[5] % 32, 7, H264)
      case None => None
      case Some(sps) =>
        if sps.offset == |bytes| then None
        else match Take(bytes, sps.(offset := sps.offset + 1), bytes[sps.offset], 8, H264)
          case None => None
          case Some(pps) => TakeExtension(bytes, pps)
  }

  /** n arrays, each with a type byte, a 16-bit count and that many units. */
  function HevcArrays(bytes: seq<byte>, c: Cursor, n: nat): Option<Cursor>
    requires c.offset <= |bytes|
    decreases n
  {
    var o := c.offset;
    if n == 0 then Some(c)
    else if |bytes| - o < 3 || (bytes[o] / 64) % 2 == 1 then None
    else match Take(bytes, c.(offset := o + 3), U16(bytes[o + 1], bytes[o + 2]), bytes[o] % 64, H265)
      case None => None
      case Some(next) => HevcArrays(bytes, next, n - 1)
  }

  /** Size of the NAL length field, when bytes is a complete legal record. */
  function RecordLength(bytes: seq<byte>, codec: Codec): Option<nat> {
    var minimum := if codec.H264? then 7 else 23;
    if |bytes| < minimum || bytes[0] != 1 then None
    else
      var length := bytes[if codec.H264? then 4 else 21] % 4 + 1;
      var end := if codec.H264? then Avc(bytes) else HevcArrays(bytes, Cursor(23, 0, {}), bytes[22]);
      if length == 3 || end.None? || end.value.offset != |bytes| || end.value.seen != RequiredBits(codec) then None
      else Some(length)
  }

  /** The reader object of the producer, whose cursor its methods move. */
  class ConfigReader {
    const bytes: seq<byte>
    const codec: Codec
    var offset: nat
    var count: nat
    var parameters: set<nat>

    constructor (bytes: seq<byte>, codec: Codec, offset: nat)
      requires offset <= |bytes|
      ensures this.bytes == bytes && this.codec == codec && At() == Cursor(offset, 0, {})
    {
      this.bytes, this.codec := bytes, codec;
      this.offset, this.count, this.parameters := offset, 0, {};
    }

    ghost function At(): Cursor
      reads this
    {
      Cursor(offset, count, parameters)
    }

    method Byte() returns (r: Option<byte>)
      requires offset <= |bytes|
      modifies this`offset
      ensures r.Some? <==> old(offset) < |bytes|
      ensures if r.Some? then r.value == bytes[old(offset)] && offset == old(offset) + 1 else offset == old(offset)
    {
      if offset >= |bytes| {
        return None;
      }
      r := Some(bytes[offset]);
      offset := offset + 1;
    }

    method Word() returns (r: Option<nat>)
      requires offset <= |bytes|
      modifies this`offset
      ensures offset <= |bytes|
      ensures r.Some? <==> |bytes| - old(offset) >= 2
      ensures r.Some? ==> r.value == U16(bytes[old(offset)], bytes[old(offset) + 1]) && offset == old(offset) + 2
    {
      var high := Byte();
      if high.None? {
        return None;
      }
      var low := Byte();
      if low.None? {
        return None;
      }
      r := Some(U16(high.value, low.value));
    }

    /** The loop body of `nals`. */
    method TakeUnit(expected: nat) returns (ok: bool)
      requires offset <= |bytes|
      modifies this
      ensures ok <==> TakeOne(bytes, old(At()), expected, codec).Some?
      ensures ok ==> At() == TakeOne(bytes, old(At()), expected, codec).value
    {
      count := count + 1;
      if count > NAL_LIMIT {
        return false;
      }
      var size := Word();
      if size.None? || offset + size.value > |bytes| {
        return false;
      }
      var nal := bytes[offset..offset + size.value];
      var kind := NalType(nal, codec);
      if kind != Some(expected) {
        return false;
      }
      parameters := parameters + AsBits(ParameterBit(codec, expected));
      offset := offset + size.value;
      return true;
    }

    method TakeUnits(n: nat, expected: nat) returns (ok: bool)
      requires offset <= |bytes|
      modifies this
      ensures ok <==> Take(bytes, old(At()), n, expected, codec).Some?
      ensures ok ==> At() == Take(bytes, old(At()), n, expected, codec).value
    {
      for i := 0 to n
        invariant offset <= |bytes|
        invariant Take(bytes, At(), n - i, expected, codec) == Take(bytes, old(At()), n, expected, codec)
      {
        ok := TakeUnit(expected);
        if !ok {
          return;
        }
      }
      return true;
    }
  }

  /** The producer's checker (`configuration`), for the length-prefixed framing. */
  method ReadRecord(bytes: seq<byte>, codec: Codec) returns (r: Option<nat>)
    ensures r == RecordLength(bytes, codec)
  {
    hide Avc, HevcArrays;
    var minimum := if codec.H264? then 7 else 23;
    if |bytes| < minimum || bytes[0] != 1 {
      return None;
    }
    var length := bytes[if codec.H264? then 4 else 21] % 4 + 1;
    if length == 3 {
      return None;
    }
    var ok: bool;
    var reader := new ConfigReader(bytes, codec, if codec.H264? then 6 else 23);
    if codec.H264? {
      ok := ReadAvc(reader);
    } else {
      ok := ReadHevc(reader);
    }
    if ok && reader.offset == |bytes| && reader.parameters == RequiredBits(codec) {
      return Some(length);
    }
    return None;
  }

  method ReadAvc(reader: ConfigReader) returns (ok: bool)
    requires reader.codec == H264 && |reader.bytes| >= 7 && reader.At() == Cursor(6, 0, {})
    modifies reader
    ensures ok <==> Avc(reader.bytes).Some?
    ensures ok ==> reader.At() == Avc(reader.bytes).value
  {
    hide Take, TakeExtension;
    var bytes := reader.bytes;
    if bytes[4] < 252 || bytes[5] < 224 {
      return false;
    }
    ok := reader.TakeUnits(bytes[5] % 32, 7);
    if !ok {
      return;
    }
    var count := reader.Byte();
    if count.None? {
      return false;
    }
    ok := reader.TakeUnits(count.value, 8);
    if ok {
      ok := ReadExtension(reader);
    }
  }

  /** The high-profile tail of avcC, when the record has one. */
  method ReadExtension(reader: ConfigReader) returns (ok: bool)
    requires reader.codec == H264 && 6 <= reader.offset <= |reader.bytes|
    modifies reader
    ensures ok <==> TakeExtension(reader.bytes, old(reader.At())).Some?
    ensures ok ==> reader.At() == TakeExtension(reader.bytes, old(reader.At())).value
  {
    hide Take;
    var bytes := reader.bytes;
    if reader.offset == |bytes| {
      return true;
    }
    if bytes[1] !in {100, 110, 122, 144} {
      return false;
    }
    var chroma := reader.Byte();
    if chroma.None? || chroma.value < 252 {
      return false;
    }
    var luma := reader.Byte();
    if luma.None? || luma.value < 248 {
      return false;
    }
    var depth := reader.Byte();
    if depth.None? || depth.value < 248 {
      return false;
    }
    var count := reader.Byte();
    if count.None? {
      return false;
    }
    ok := reader.TakeUnits(count.value, 13);
  }

  method ReadHevc(reader: ConfigReader) returns (ok: bool)
    requires reader.codec == H265 && |reader.bytes| >= 23 && reader.At() == Cursor(23, 0, {})
    modifies reader
    ensures ok <==> HevcArrays(reader.bytes, Cursor(23, 0, {}), reader.bytes[22]).Some?
    ensures ok ==> reader.At() == HevcArrays(reader.bytes, Cursor(23, 0, {}), reader.bytes[22]).value
  {
    hide Take;
    var bytes := reader.bytes;
    for i := 0 to bytes[22]
      invariant reader.offset <= |bytes|
      invariant HevcArrays(bytes, reader.At(), bytes[22] - i) == HevcArrays(bytes, Cursor(23, 0, {}), bytes[22])
    {
      var kind := reader.Byte();
      if kind.None? || (kind.value / 64) % 2 == 1 {
        return false;
      }
      var count := reader.Word();
      if count.None? {
        return false;
      }
      ok := reader.TakeUnits(count.value, kind.value % 64);
      if !ok {
        return;
      }
    }
    return true;
  }

  /** One turn of the consumer's `take`: the captured variables come in and go out. */
  method ConsumerTakeOne(bytes: seq<byte>, codec: Codec, expected: nat, c: Cursor) returns (ok: bool, next: Cursor)
    requires c.offset <= |bytes|
    ensures ok <==> TakeOne(bytes, c, expected, codec).Some?
    ensures ok ==> next == TakeOne(bytes, c, expected, codec).value
  {
    next := c;
    if c.count + 1 > NAL_LIMIT || |bytes| - c.offset < 2 {
      return false, next;
    }
    var size := U16(bytes[c.offset], bytes[c.offset + 1]);
    var begin := c.offset + 2;
    if size > |bytes| - begin {
      return false, next;
    }
    var kind := NalType(bytes[begin..begin + size], codec);
    if kind.None? || kind.value != expected {
      return false, next;
    }
    return true, Cursor(begin + size, c.count + 1, c.seen + AsBits(ParameterBit(codec, kind.value)));
  }

  method ConsumerTake(bytes: seq<byte>, codec: Codec, n: nat, expected: nat, c: Cursor) returns (ok: bool, next: Cursor)
    requires c.offset <= |bytes|
    ensures ok <==> Take(bytes, c, n, expected, codec).Some?
    ensures ok ==> next == Take(bytes, c, n, expected, codec).value
  {
    next := c;
    for i := 0 to n
      invariant next.offset <= |bytes|
      invariant Take(bytes, next, n - i, expected, codec) == Take(bytes, c, n, expected, codec)
    {
      ok, next := ConsumerTakeOne(bytes, codec, expected, next);
      if !ok {
        return;
      }
    }
    return true, next;
  }

  /** The consumer's checker (`ParseCodecConfig`). */
  method ParseCodecConfig(bytes: seq<byte>, codec: Codec) returns (ok: bool, length: nat)
    ensures ok <==> RecordLength(bytes, codec).Some?
    ensures ok ==> RecordLength(bytes, codec) == Some(length)
  {
    hide Avc, HevcArrays;
    var minimum := if codec.H264? then 7 else 23;
    if |bytes| < minimum || bytes[0] != 1 {
      return false, 0;
    }
    length := bytes[if codec.H264? then 4 else 21] % 4 + 1;
    if length == 3 {
      return false, length;
    }
    var c: Cursor;
    if codec.H264? {
      ok, c := ParseAvc(bytes);
    } else {
      ok, c := ParseHevc(bytes);
    }
    ok := ok && c.offset == |bytes| && c.seen == RequiredBits(codec);
  }

  method ParseAvc(bytes: seq<byte>) returns (ok: bool, c: Cursor)
    requires |bytes| >= 7
    ensures ok <==> Avc(bytes).Some?
    ensures ok ==> c == Avc(bytes).value
  {
    hide Take;
    c := Cursor(6, 0, {});
    if bytes[4] < 252 || bytes[5] < 224 {
      return false, c;
    }
    ok, c := ConsumerTake(bytes, H264, bytes[5] % 32, 7, c);
    if !ok || c.offset == |bytes| {
      return false, c;
    }
    ok, c := ConsumerTake(bytes, H264, bytes[c.offset], 8, c.(offset := c.offset + 1));
    if ok && c.offset < |bytes| {
      if bytes[1] !in {100, 110, 122, 144} || |bytes| - c.offset < 4 || bytes[c.offset] < 252
         || bytes[c.offset + 1] < 248 || bytes[c.offset + 2] < 248 {
        return false, c;
      }
      ok, c := ConsumerTake(bytes, H264, bytes[c.offset + 3], 13, c.(offset := c.offset + 4));
    }
  }

  method ParseHevc(bytes: seq<byte>) returns (ok: bool, c: Cursor)
    requires |bytes| >= 23
    ensures ok <==> HevcArrays(bytes, Cursor(23, 0, {}), bytes[22]).Some?
    ensures ok ==> c == HevcArrays(bytes, Cursor(23, 0, {}), bytes[22]).value
  {
    hide Take;
    c := Cursor(23, 0, {});
    for i := 0 to bytes[22]
      invariant c.offset <= |bytes|
      invariant HevcArrays(bytes, c, bytes[22] - i) == HevcArrays(bytes, Cursor(23, 0, {}), bytes[22])
    {
      if |bytes| - c.offset < 3 || (bytes[c.offset] / 64) % 2 == 1 {
        return false, c;
      }
      ok, c := ConsumerTake(bytes, H265, U16(bytes[c.offset + 1], bytes[c.offset + 2]), bytes[c.offset] % 64,
                            c.(offset := c.offset + 3));
      if !ok {
        return;
      }
    }
    return true, c;
  }

  /** What the producer stores as `length_bytes`: the whole of `configuration`. */
  function ConfigurationLength(bytes: seq<byte>, codec: Codec, framing: Framing): (r: Option<nat>)
    ensures r.Some? ==> 0 < |bytes| <= CONFIG_LIMIT
    ensures r.Some? && framing.LengthPrefixed? ==> r.value in {1, 2, 4}
  {
    if bytes == [] || |bytes| > CONFIG_LIMIT then None
    else if framing.AnnexB? then if WellFormed(bytes, codec, framing, 0, true) then Some(0) else None
    else RecordLength(bytes, codec)
  }

  method Configuration(bytes: seq<byte>, codec: Codec, framing: Framing) returns (r: Option<nat>)
    ensures r == ConfigurationLength(bytes, codec, framing)
  {
    if bytes == [] || |bytes| > CONFIG_LIMIT {
      return None;
    }
    if framing.AnnexB? {
      var summary := InspectNals(bytes, codec, framing, 0, true);
      return if summary.None? then None else Some(0);
    }
    r := ReadRecord(bytes, codec);
  }
}
