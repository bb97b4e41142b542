/** iAP2 control messages: the parameter list codec and the message codec. */
module Csm {
  import opened Bytes

  const MAX_MESSAGE: nat := 65525
  const MAX_PARAMETERS: nat := 64
  const HEADER: nat := 6

  datatype Parameter = Parameter(id: u16, value: seq<byte>)

  /** Length, id and value of one parameter; the length field keeps the low 16 bits of the length. */
  function PrintOne(p: Parameter): (r: seq<byte>)
    ensures |r| == |p.value| + 4
  {
    Word(|p.value| + 4) + Word(p.id) + p.value
  }

  function Print(parameters: seq<Parameter>): seq<byte> {
    if parameters == [] then [] else PrintOne(parameters[0]) + Print(parameters[1..])
  }

  predicate Fits(p: Parameter) {
    |p.value| + 4 <= 0xffff
  }

  /** The parameter lists a message can carry. */
  predicate Encodable(parameters: seq<Parameter>) {
    && |parameters| <= MAX_PARAMETERS
    && (forall p :: p in parameters ==> Fits(p))
    && |Print(parameters)| <= MAX_MESSAGE - HEADER
  }

  lemma {:induction false} PrintAppend(a: seq<Parameter>, b: seq<Parameter>)
    ensures Print(a + b) == Print(a) + Print(b)
  {
    hide PrintOne;
    if a == [] {
      assert a + b == b;
    } else {
      PrintAppend(a[1..], b);
      assert (a + b)[1..] == a[1..] + b;
    }
  }

  lemma PrintStep(parameters: seq<Parameter>, i: nat)
    requires i < |parameters|
    ensures Print(parameters[..i + 1]) == Print(parameters[..i]) + PrintOne(parameters[i])
    ensures |Print(parameters)| >= |Print(parameters[..i + 1])|
  {
    PrintAppend(parameters[..i], [parameters[i]]);
    TakeSnoc(parameters, i);
    assert Print([parameters[i]]) == PrintOne(parameters[i]) + Print([]);
    PrintAppend(parameters[..i + 1], parameters[i + 1..]);
    assert parameters == parameters[..i + 1] + parameters[i + 1..];
  }

  lemma PrintNothing(parameters: seq<Parameter>)
    ensures Print(parameters[..0]) == []
  {
  }

  /** `encode_parameters`: succeeds on exactly the encodable lists. */
  method EncodeParameters(parameters: seq<Parameter>) returns (r: Result<seq<byte>>)
    ensures r == if Encodable(parameters) then Ok(Print(parameters)) else Err(Bounds)
  {
    hide PrintOne, Print;
    if |parameters| > MAX_PARAMETERS {
      return Err(Bounds);
    }
    var bytes := [];
    PrintNothing(parameters);
    for i := 0 to |parameters|
      invariant bytes == Print(parameters[..i])
      invariant |bytes| <= MAX_MESSAGE - HEADER
      invariant forall p :: p in parameters[..i] ==> Fits(p)
    {
      var p := parameters[i];
      var length := |p.value| + 4;
      PrintStep(parameters, i);
      if length > 0xffff || |bytes| + length > MAX_MESSAGE - HEADER {
        return Err(Bounds);
      }
      bytes := bytes + PrintOne(p);
    }
    assert parameters[..|parameters|] == parameters;
    return Ok(bytes);
  }

  /** The parameters bytes holds, when at most room of them fill it exactly. */
  function Parse(bytes: seq<byte>, room: nat): Result<seq<Parameter>>
    decreases |bytes|
  {
    if bytes == [] then Ok([])
    else if |bytes| < 4 || room == 0 then Err(Bounds)
    else
      var length := U16(bytes[0], bytes[1]);
      if length < 4 || length > |bytes| then Err(Malformed)
      else match Parse(bytes[length..], room - 1)
        case Err(error) => Err(error)
        case Ok(rest) => Ok([Parameter(U16(bytes[2], bytes[3]), bytes[4..length])] + rest)
  }

  function ParseParameters(bytes: seq<byte>): Result<seq<Parameter>> {
    if |bytes| > MAX_MESSAGE - HEADER then Err(Bounds) else Parse(bytes, MAX_PARAMETERS)
  }

  /** `decode_parameters`, which consumes its slice in a loop. */
  method DecodeParameters(input: seq<byte>) returns (r: Result<seq<Parameter>>)
    ensures r == ParseParameters(input)
  {
    if |input| > MAX_MESSAGE - HEADER {
      return Err(Bounds);
    }
    var bytes := input;
    var fields: seq<Parameter> := [];
    assert Prepend([], Parse(input, MAX_PARAMETERS)) == Parse(input, MAX_PARAMETERS) by {
      if Parse(input, MAX_PARAMETERS).Ok? {
        assert [] + Parse(input, MAX_PARAMETERS).value == Parse(input, MAX_PARAMETERS).value;
      }
    }
    while bytes != []
      invariant |fields| <= MAX_PARAMETERS
      invariant Parse(input, MAX_PARAMETERS) == Prepend(fields, Parse(bytes, MAX_PARAMETERS - |fields|))
      decreases |bytes|
    {
      if |bytes| < 4 || |fields| == MAX_PARAMETERS {
        return Err(Bounds);
      }
      var length := U16(bytes[0], bytes[1]);
      if length < 4 || length > |bytes| {
        return Err(Malformed);
      }
      var field := Parameter(U16(bytes[2], bytes[3]), bytes[4..length]);
      PrependStep(fields, field, Parse(bytes[length..], MAX_PARAMETERS - |fields| - 1));
      fields := fields + [field];
      bytes := bytes[length..];
    }
    assert fields + [] == fields;
    return Ok(fields);
  }

  ghost function Prepend(fields: seq<Parameter>, r: Result<seq<Parameter>>): Result<seq<Parameter>> {
    match r case Err(error) => Err(error) case Ok(rest) => Ok(fields + rest)
  }

  lemma PrependStep(fields: seq<Parameter>, field: Parameter, r: Result<seq<Parameter>>)
    ensures Prepend(fields, Prepend([field], r)) == Prepend(fields + [field], r)
  {
    if r.Ok? {
      assert fields + ([field] + r.value) == fields + [field] + r.value;
    }
  }

  /** One parameter at the front of a byte string, read back. */
  lemma OneReads(p: Parameter, rest: seq<byte>)
    requires Fits(p)
    ensures var bytes := PrintOne(p) + rest;
            var length := |p.value| + 4;
            && U16(bytes[0], bytes[1]) == length
            && U16(bytes[2], bytes[3]) == p.id
            && bytes[4..length] == p.value
            && bytes[length..] == rest
  {
    hide Word, U16;
  }

  lemma {:induction false} ParsePrint(parameters: seq<Parameter>, room: nat)
    requires |parameters| <= room && forall p :: p in parameters ==> Fits(p)
    ensures Parse(Print(parameters), room) == Ok(parameters)
  {
    hide PrintOne, U16;
    if parameters != [] {
      ParsePrint(parameters[1..], room - 1);
      OneReads(parameters[0], Print(parameters[1..]));
      assert parameters == [parameters[0]] + parameters[1..];
    }
  }

  /** The first length bytes are the printed form of what is read from them. */
  lemma OneWrites(bytes: seq<byte>)
    requires 4 <= |bytes| && 4 <= U16(bytes[0], bytes[1]) <= |bytes|
    ensures var length := U16(bytes[0], bytes[1]);
            PrintOne(Parameter(U16(bytes[2], bytes[3]), bytes[4..length])) == bytes[..length]
  {
    hide Word, U16;
    var length := U16(bytes[0], bytes[1]);
    WordOnto(bytes[0], bytes[1]);
    WordOnto(bytes[2], bytes[3]);
    assert bytes[..length] == [bytes[0], bytes[1]] + [bytes[2], bytes[3]] + bytes[4..length];
  }

  lemma {:induction false} PrintParse(bytes: seq<byte>, room: nat)
    requires Parse(bytes, room).Ok?
    ensures var parameters := Parse(bytes, room).value;
            && Print(parameters) == bytes
            && |parameters| <= room
            && forall p :: p in parameters ==> Fits(p)
    decreases |bytes|
  {
    hide PrintOne;
    if bytes != [] {
      var length := U16(bytes[0], bytes[1]);
      var parameters := Parse(bytes, room).value;
      PrintParse(bytes[length..], room - 1);
      assert parameters[1..] == Parse(bytes[length..], room - 1).value;
      OneWrites(bytes);
      assert bytes == bytes[..length] + bytes[length..];
    }
  }

  /**
   The parameter decoder accepts exactly the printed forms of the encodable lists, and returns the list printed:
   each list has one spelling and each accepted spelling one meaning.
   */
  lemma ParametersExact(bytes: seq<byte>, parameters: seq<Parameter>)
    ensures ParseParameters(bytes) == Ok(parameters) <==> Encodable(parameters) && Print(parameters) == bytes
  {
    if ParseParameters(bytes) == Ok(parameters) {
      PrintParse(bytes, MAX_PARAMETERS);
    }
    if Encodable(parameters) && Print(parameters) == bytes {
      ParsePrint(parameters, MAX_PARAMETERS);
    }
  }

  // ---- Whole messages ----

  datatype Message = Message(id: u16, parameters: seq<Parameter>)

  function MessageHeader(id: u16, length: nat): (r: seq<byte>)
    requires length <= MAX_MESSAGE
    ensures |r| == HEADER
    ensures r[..2] == [0x40, 0x40] && U16(r[2], r[3]) == length && U16(r[4], r[5]) == id
  {
    [0x40, 0x40] + Word(length) + Word(id)
  }

  function EncodeMessage(m: Message): (r: Result<seq<byte>>)
    ensures r.Ok? <==> Encodable(m.parameters)
    ensures r.Ok? ==> HEADER <= |r.value| <= MAX_MESSAGE
  {
    if Encodable(m.parameters) then
      var body := Print(m.parameters);
      Ok(MessageHeader(m.id, |body| + HEADER) + body)
    else Err(Bounds)
  }

  function DecodeMessage(bytes: seq<byte>): Result<Message> {
    if |bytes| < HEADER || |bytes| > MAX_MESSAGE then Err(Bounds)
    else if bytes[0] != 0x40 || bytes[1] != 0x40 || U16(bytes[2], bytes[3]) != |bytes| then Err(Malformed)
    else match ParseParameters(bytes[HEADER..])
      case Err(error) => Err(error)
      case Ok(parameters) => Ok(Message(U16(bytes[4], bytes[5]), parameters))
  }

  /** Decoding and encoding are inverse: a byte string decodes to m exactly when m encodes to it. */
  lemma MessageExact(bytes: seq<byte>, m: Message)
    ensures DecodeMessage(bytes) == Ok(m) <==> EncodeMessage(m) == Ok(bytes)
  {
    hide Encodable, ParseParameters, Print, Word, U16;
    if DecodeMessage(bytes) == Ok(m) {
      ParametersExact(bytes[HEADER..], m.parameters);
      WordOnto(bytes[2], bytes[3]);
      WordOnto(bytes[4], bytes[5]);
      assert MessageHeader(m.id, |bytes|) == bytes[..HEADER];
      assert bytes == bytes[..HEADER] + bytes[HEADER..];
    }
    if EncodeMessage(m) == Ok(bytes) {
      assert bytes[HEADER..] == Print(m.parameters);
      assert bytes[..2] == [0x40, 0x40];
      ParametersExact(bytes[HEADER..], m.parameters);
    }
  }
}
