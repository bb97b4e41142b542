/** iAP2 link frames: the checksummed codec, and reading frames off a byte stream. */
module Iap2Frame {
  import opened Bytes

  const HEADER: nat := 9
  const MAX_FRAME: nat := 65535
  const ACK: byte := 0x40
  const CONTROL_SESSION: byte := 10
  const DETECT: seq<byte> := [0xff, 0x55, 0x02, 0x00, 0xee, 0x10]

  function Sum(bytes: seq<byte>): nat {
    if bytes == [] then 0 else Sum(bytes[..|bytes| - 1]) + bytes[|bytes| - 1]
  }

  /** The byte that brings the sum of bytes to zero, modulo 256. */
  function Complement(bytes: seq<byte>): byte {
    (256 - Sum(bytes) % 256) % 256
  }

  datatype Frame = Frame(flags: byte, sequence: byte, acknowledgement: byte, session: byte, payload: seq<byte>)

  /** Bytes the frame occupies: header, then payload and its checksum when there is one. */
  function Length(f: Frame): nat {
    HEADER + |f.payload| + (if f.payload == [] then 0 else 1)
  }

  function HeaderFields(f: Frame): (r: seq<byte>)
    requires Length(f) <= MAX_FRAME
    ensures |r| == 8
  {
    var length := Length(f);
    [0xff, 0x5a, length / 256, length % 256, f.flags, f.sequence, f.acknowledgement, f.session]
  }

  function Encode(f: Frame): (r: Result<seq<byte>>)
    ensures r.Ok? ==> |r.value| == Length(f) <= MAX_FRAME
  {
    if Length(f) > MAX_FRAME then Err(Bounds)
    else if f.flags % 16 != 0 then Err(Unsupported)
    else
      var header := HeaderFields(f) + [Complement(HeaderFields(f))];
      Ok(if f.payload == [] then header else header + f.payload + [Complement(f.payload)])
  }

  function Decode(bytes: seq<byte>): Result<Frame> {
    if |bytes| < HEADER || |bytes| > MAX_FRAME then Err(Bounds)
    else if bytes[0] != 0xff || bytes[1] != 0x5a || U16(bytes[2], bytes[3]) != |bytes| || |bytes| == HEADER + 1 then
      Err(Malformed)
    else if Complement(bytes[..HEADER]) != 0 || (|bytes| > HEADER && Complement(bytes[HEADER..]) != 0) then
      Err(Checksum)
    else if bytes[4] % 16 != 0 then Err(Unsupported)
    else Ok(Frame(bytes[4], bytes[5], bytes[6], bytes[7], if |bytes| == HEADER then [] else bytes[HEADER..|bytes| - 1]))
  }

  lemma SumSnoc(bytes: seq<byte>, b: byte)
    ensures Sum(bytes + [b]) == Sum(bytes) + b
  {
    assert (bytes + [b])[..|bytes|] == bytes;
  }

  lemma ComplementCloses(bytes: seq<byte>)
    ensures Complement(bytes + [Complement(bytes)]) == 0
  {
    SumSnoc(bytes, Complement(bytes));
  }

  lemma ClosingByteIsComplement(bytes: seq<byte>)
    requires bytes != [] && Complement(bytes) == 0
    ensures bytes[|bytes| - 1] == Complement(bytes[..|bytes| - 1])
  {
  }

  lemma {:induction false} SumUpdate(bytes: seq<byte>, i: nat, b: byte)
    requires i < |bytes|
    ensures Sum(bytes[i := b]) == Sum(bytes) - bytes[i] + b
  {
    var n := |bytes| - 1;
    if i < n {
      SumUpdate(bytes[..n], i, b);
      assert bytes[i := b][..n] == bytes[..n][i := b];
    } else {
      assert bytes[i := b][..n] == bytes[..n];
    }
  }

  /** A single changed byte always breaks the checksum over it. */
  lemma SubstitutionBreaksSum(bytes: seq<byte>, i: nat, b: byte)
    requires i < |bytes| && b != bytes[i] && Complement(bytes) == 0
    ensures Complement(bytes[i := b]) != 0
  {
    SumUpdate(bytes, i, b);
  }

  lemma EncodedParts(f: Frame)
    requires Encode(f).Ok?
    ensures var bytes := Encode(f).value;
            && f.flags % 16 == 0
            && bytes[..8] == HeaderFields(f)
            && Complement(bytes[..HEADER]) == 0
            && (f.payload != [] ==>
                  && bytes[HEADER..] == f.payload + [Complement(f.payload)]
                  && Complement(bytes[HEADER..]) == 0)
  {
    var bytes := Encode(f).value;
    assert bytes[..HEADER] == HeaderFields(f) + [Complement(HeaderFields(f))];
    ComplementCloses(HeaderFields(f));
    if f.payload != [] {
      assert bytes[HEADER..] == f.payload + [Complement(f.payload)];
      ComplementCloses(f.payload);
    }
  }

  lemma HeaderSays(f: Frame)
    requires Length(f) <= MAX_FRAME
    ensures var h := HeaderFields(f);
            && h[0] == 0xff && h[1] == 0x5a && U16(h[2], h[3]) == Length(f)
            && h[4] == f.flags && h[5] == f.sequence && h[6] == f.acknowledgement && h[7] == f.session
  {
  }

  /** Decoding inverts encoding for every frame that can be encoded. */
  lemma FrameRoundTrip(f: Frame)
    requires Encode(f).Ok?
    ensures Decode(Encode(f).value) == Ok(f)
  {
    hide Complement, Encode, HeaderFields;
    EncodedParts(f);
    HeaderSays(f);
    var bytes := Encode(f).value;
    assert forall i :: 0 <= i < 8 ==> bytes[i] == bytes[..8][i];
    if f.payload != [] {
      assert bytes[HEADER..|bytes| - 1] == bytes[HEADER..][..|f.payload|] == f.payload;
    }
  }

  /** And encoding inverts decoding, so every accepted byte string is the canonical form of its frame. */
  lemma FrameOnto(bytes: seq<byte>)
    requires Decode(bytes).Ok?
    ensures Encode(Decode(bytes).value) == Ok(bytes)
  {
    var f := Decode(bytes).value;
    DecodedHeader(bytes);
    hide Complement, HeaderFields;
    ClosingByteIsComplement(bytes[..HEADER]);
    assert bytes[..HEADER][..8] == bytes[..8];
    if |bytes| > HEADER {
      ClosingByteIsComplement(bytes[HEADER..]);
      assert bytes[HEADER..][..|bytes| - HEADER - 1] == f.payload;
      assert bytes == bytes[..8] + [bytes[8]] + f.payload + [bytes[|bytes| - 1]];
    } else {
      assert bytes == bytes[..8] + [bytes[8]];
    }
  }

  lemma DecodedHeader(bytes: seq<byte>)
    requires Decode(bytes).Ok?
    ensures Length(Decode(bytes).value) == |bytes| && bytes[..8] == HeaderFields(Decode(bytes).value)
  {
    hide Complement;
    WordParts(bytes[2], bytes[3]);
  }

  lemma WordParts(high: byte, low: byte)
    ensures U16(high, low) / 256 == high && U16(high, low) % 256 == low
  {
  }

  /** No encoded frame survives the corruption of any one of its bytes. */
  lemma CorruptionIsRejected(f: Frame, i: nat, b: byte)
    requires Encode(f).Ok? && i < Length(f) && b != Encode(f).value[i]
    ensures Decode(Encode(f).value[i := b]).Err?
  {
    hide Complement, Encode, HeaderFields;
    var bytes := Encode(f).value;
    var bad := bytes[i := b];
    EncodedParts(f);
    if i < HEADER {
      assert bad[..HEADER] == bytes[..HEADER][i := b];
      SubstitutionBreaksSum(bytes[..HEADER], i, b);
    } else {
      assert bad[HEADER..] == bytes[HEADER..][i - HEADER := b];
      SubstitutionBreaksSum(bytes[HEADER..], i - HEADER, b);
    }
  }

  // ---- Frames on a stream ----

  /** `frame` of the wired control: one frame off the front of the stream, after an optional detect pattern. */
  datatype Read = Got(frame: Frame, rest: seq<byte>) | Short | Bad(error: Error)

  predicate Reset(f: Frame) {
    f.flags / 16 % 2 == 1
  }

  function ReadFrame(stream: seq<byte>): (r: Read)
    ensures r.Got? ==> |r.rest| < |stream|
  {
    if |stream| < 2 then Short
    else if stream[..2] == DETECT[..2] then
      if |stream| < 6 then Short
      else if stream[2..6] != DETECT[2..] then Bad(Malformed)
      else ReadBody(stream[6..])
    else ReadBody(stream)
  }

  function ReadBody(stream: seq<byte>): (r: Read)
    ensures r.Got? ==> |r.rest| < |stream|
  {
    if |stream| < HEADER then Short
    else
      var length := U16(stream[2], stream[3]);
      if length < HEADER || length == HEADER + 1 then Bad(Bounds)
      else if |stream| < length then Short
      else match Decode(stream[..length])
        case Err(error) => Bad(error)
        case Ok(f) => if Reset(f) then Bad(Rejected) else Got(f, stream[length..])
  }

  lemma BodyReads(f: Frame, rest: seq<byte>)
    requires Encode(f).Ok? && !Reset(f)
    ensures var stream := Encode(f).value + rest;
            stream[..2] == [0xff, 0x5a] && ReadBody(stream) == Got(f, rest)
  {
    hide Complement, Encode, Decode, HeaderFields;
    FrameRoundTrip(f);
    EncodedParts(f);
    var bytes := Encode(f).value;
    var stream := bytes + rest;
    assert stream[..|bytes|] == bytes && stream[|bytes|..] == rest;
    assert forall i :: 0 <= i < 8 ==> stream[i] == HeaderFields(f)[i] by {
      assert forall i :: 0 <= i < 8 ==> stream[i] == bytes[..8][i];
    }
    HeaderSays(f);
    assert stream[..2] == [0xff, 0x5a];
  }

  /** The reader recovers a written frame, with or without a detect pattern, and leaves the rest of the stream alone. */
  lemma ReadsWhatWasWritten(f: Frame, rest: seq<byte>)
    requires Encode(f).Ok? && !Reset(f)
    ensures ReadFrame(Encode(f).value + rest) == Got(f, rest)
    ensures ReadFrame(DETECT + (Encode(f).value + rest)) == Got(f, rest)
  {
    hide Complement, Encode, Decode, ReadBody;
    BodyReads(f, rest);
    var stream := Encode(f).value + rest;
    assert stream[..2][1] != DETECT[..2][1];
    var detected := DETECT + stream;
    assert detected[..2] == DETECT[..2] && detected[2..6] == DETECT[2..] && detected[6..] == stream;
  }
}
