/** Protocol Buffers as the Android Auto channels write and read them: base-128 varints and flat field lists. */
module Proto {
  import opened Bytes

  const FIELD_LIMIT: nat := 1024
  const MAX_FIELD: nat := 0x1fff_ffff
  const U64_SPAN: nat := 0x1_0000_0000_0000_0000

  datatype Fault = TruncatedVarint | IntegerOverflow | FieldLimit | InvalidTag | UnsupportedType | TruncatedField

  // ---- Varints ----

  function PutVar(value: nat): seq<byte> {
    if value >= 128 then [value % 128 + 128] + PutVar(value / 128) else [value]
  }

  /** `Proto::var`. */
  method WriteVar(buffer: seq<byte>, number: u64) returns (r: seq<byte>)
    ensures r == buffer + PutVar(number)
  {
    var value: nat := number;
    r := buffer;
    while value >= 128
      invariant r + PutVar(value) == buffer + PutVar(number)
    {
      assert r + ([value % 128 + 128] + PutVar(value / 128)) == r + [value % 128 + 128] + PutVar(value / 128);
      r := r + [value % 128 + 128];
      value := value / 128;
    }
    r := r + [value];
  }

  datatype VarRead = Read(value: nat, rest: seq<byte>) | Stuck(fault: Fault)

  /** What the bits from the one worth 128 to the power k up can be worth in a 64-bit number, plus one. */
  function Limit(k: nat): (r: nat)
    requires k <= 9
    ensures r >= if k == 9 then 2 else 256
    decreases 9 - k
  {
    if k == 9 then 2 else 128 * Limit(k + 1)
  }

  lemma LimitIsU64()
    ensures Limit(0) == U64_SPAN
  {
    assert Limit(8) == 128 * Limit(9);
    assert Limit(7) == 128 * Limit(8);
    assert Limit(6) == 128 * Limit(7);
    assert Limit(5) == 128 * Limit(6);
    assert Limit(4) == 128 * Limit(5);
    assert Limit(3) == 128 * Limit(4);
    assert Limit(2) == 128 * Limit(3);
    assert Limit(1) == 128 * Limit(2);
  }

  /** The rest of a varint of which k bytes are read: what it adds, in units of 128 to the power k. */
  function GetVar(bytes: seq<byte>, k: nat): (r: VarRead)
    requires k <= 9
    ensures r.Read? ==> r.value < Limit(k) && |r.rest| < |bytes|
    decreases |bytes|
  {
    if bytes == [] then Stuck(TruncatedVarint)
    else if k == 9 && bytes[0] > 1 then Stuck(IntegerOverflow)
    else if bytes[0] < 128 then Read(bytes[0], bytes[1..])
    else match GetVar(bytes[1..], k + 1)
      case Stuck(fault) => Stuck(fault)
      case Read(value, rest) => Read(bytes[0] - 128 + 128 * value, rest)
  }

  function Power(k: nat): nat {
    if k == 0 then 1 else 128 * Power(k - 1)
  }

  ghost function Scaled(value: nat, k: nat, r: VarRead): VarRead {
    match r case Stuck(fault) => Stuck(fault) case Read(v, rest) => Read(value + Power(k) * v, rest)
  }

  /** The varint reader inside `numbers`, which adds up the seven-bit groups from the lowest. */
  method ReadVar(input: seq<byte>) returns (r: VarRead)
    ensures r == GetVar(input, 0)
  {
    hide GetVar, Scaled, Power;
    var value: nat, k: nat := 0, 0;
    var bytes := input;
    ScaledStart(input);
    while k < 10
      invariant 0 <= k <= 9
      invariant GetVar(input, 0) == Scaled(value, k, GetVar(bytes, k))
    {
      ScaledStep(value, k, bytes);
      if bytes == [] {
        return Stuck(TruncatedVarint);
      }
      var b := bytes[0];
      if k == 9 && b > 1 {
        return Stuck(IntegerOverflow);
      }
      bytes := bytes[1..];
      value := value + Power(k) * (b % 128);
      if b < 128 {
        return Read(value, bytes);
      }
      k := k + 1;
    }
    return Stuck(IntegerOverflow);
  }

  lemma Regroup(p: nat, low: nat, v: nat)
    ensures p * (low + 128 * v) == p * low + 128 * p * v
  {
  }

  lemma ScaledStart(bytes: seq<byte>)
    ensures Scaled(0, 0, GetVar(bytes, 0)) == GetVar(bytes, 0)
  {
  }

  /** One turn of the reader's loop. */
  lemma ScaledStep(value: nat, k: nat, bytes: seq<byte>)
    requires k <= 9
    ensures bytes == [] ==> Scaled(value, k, GetVar(bytes, k)) == Stuck(TruncatedVarint)
    ensures bytes != [] && k == 9 && bytes[0] > 1 ==> Scaled(value, k, GetVar(bytes, k)) == Stuck(IntegerOverflow)
    ensures bytes != [] && !(k == 9 && bytes[0] > 1) ==>
              var next := value + Power(k) * (bytes[0] % 128);
              && (bytes[0] < 128 ==> Scaled(value, k, GetVar(bytes, k)) == Read(next, bytes[1..]))
              && (bytes[0] >= 128 ==>
                    k < 9 && Scaled(value, k, GetVar(bytes, k)) == Scaled(next, k + 1, GetVar(bytes[1..], k + 1)))
  {
    hide Limit, Power;
    if bytes != [] && bytes[0] >= 128 && k < 9 {
      ScaledMore(value, k, bytes[0], GetVar(bytes[1..], k + 1));
    }
  }

  lemma ScaledMore(value: nat, k: nat, b: byte, tail: VarRead)
    requires b >= 128
    ensures Scaled(value, k, if tail.Read? then Read(b - 128 + 128 * tail.value, tail.rest) else tail)
         == Scaled(value + Power(k) * (b % 128), k + 1, tail)
  {
    assert Power(k + 1) == 128 * Power(k) && b % 128 == b - 128;
    hide Power;
    if tail.Read? {
      Regroup(Power(k), b - 128, tail.value);
    }
  }

  lemma {:induction false} PutGet(value: nat, k: nat, rest: seq<byte>)
    requires k <= 9 && value < Limit(k)
    ensures GetVar(PutVar(value) + rest, k) == Read(value, rest)
    decreases value
  {
    var bytes := PutVar(value) + rest;
    if value >= 128 {
      assert k < 9;
      PutGet(value / 128, k + 1, rest);
      assert bytes[1..] == PutVar(value / 128) + rest;
    } else {
      assert bytes[1..] == rest;
    }
  }

  /** Every 64-bit number is read back from its varint, whatever follows. */
  lemma VarRoundTrip(value: u64, rest: seq<byte>)
    ensures GetVar(PutVar(value) + rest, 0) == Read(value, rest)
  {
    LimitIsU64();
    PutGet(value, 0, rest);
  }

  /** The reader takes longer spellings too, so printing what was read can give other bytes. */
  lemma RedundantVarint()
    ensures GetVar([0x80, 0x00], 0) == Read(0, []) && PutVar(0) != [0x80, 0x00]
  {
    assert GetVar([0x80, 0x00][1..], 1) == Read(0, []);
  }

  /** The last byte of the varint at the front of bytes. */
  function LastByte(bytes: seq<byte>, k: nat): byte
    requires k <= 9 && GetVar(bytes, k).Read?
    decreases |bytes|
  {
    if bytes[0] < 128 then bytes[0] else LastByte(bytes[1..], k + 1)
  }

  lemma {:induction false} CanonicalFrom(bytes: seq<byte>, k: nat)
    requires k <= 9 && GetVar(bytes, k).Read?
    ensures var r := GetVar(bytes, k);
            && (PutVar(r.value) + r.rest == bytes <==> bytes[0] < 128 || LastByte(bytes, k) != 0)
            && (bytes[0] >= 128 && LastByte(bytes, k) != 0 ==> r.value >= 128)
    decreases |bytes|
  {
    var r := GetVar(bytes, k);
    if bytes[0] < 128 {
      assert bytes == [bytes[0]] + bytes[1..];
    } else {
      var tail := GetVar(bytes[1..], k + 1);
      CanonicalFrom(bytes[1..], k + 1);
      if r.value >= 128 {
        assert r.value / 128 == tail.value && r.value % 128 == bytes[0] - 128;
        var printed := PutVar(r.value) + r.rest;
        assert printed[1..] == PutVar(tail.value) + r.rest;
        assert bytes == [bytes[0]] + bytes[1..];
        if tail.value == 0 {
          assert false;
        }
        if bytes[1] < 128 {
          assert tail.value == bytes[1] && LastByte(bytes, k) == bytes[1];
        }
      } else {
        assert tail.value == 0;
        assert (PutVar(r.value) + r.rest)[0] != bytes[0];
      }
    }
  }

  /** Exactly the varints of one byte and those that do not end in a zero byte are the ones the printer makes. */
  lemma CanonicalIff(bytes: seq<byte>)
    requires GetVar(bytes, 0).Read?
    ensures PutVar(GetVar(bytes, 0).value) + GetVar(bytes, 0).rest == bytes <==>
              bytes[0] < 128 || LastByte(bytes, 0) != 0
  {
    CanonicalFrom(bytes, 0);
  }

  // ---- Fields ----

  datatype Field = Number(id: u32, value: u64) | Bytes(id: u32, data: seq<byte>)

  /** `Proto::number`, `bytes` and `nested`; a nested message is the bytes of its own fields. */
  function PutField(f: Field): seq<byte> {
    match f
    case Number(id, value) => PutVar(id * 8) + PutVar(value)
    case Bytes(id, data) => PutVar(id * 8 + 2) + PutVar(|data|) + data
  }

  /** The finished message of a list of fields. */
  function Finish(fields: seq<Field>): seq<byte> {
    if fields == [] then [] else PutField(fields[0]) + Finish(fields[1..])
  }

  type Fields = map<u32, u64>

  datatype FieldRead = Entry(id: u32, value: Option<u64>, rest: seq<byte>) | Broken(fault: Fault)

  /** One field at the front of the input; None for the value of one that is skipped. */
  function GetField(input: seq<byte>): (r: FieldRead)
    requires input != []
    ensures r.Entry? ==> |r.rest| < |input|
  {
    match GetVar(input, 0)
    case Stuck(fault) => Broken(fault)
    case Read(tag, rest) =>
      LimitIsU64();
      var id := tag / 8;
      if id == 0 || id > MAX_FIELD then Broken(InvalidTag)
      else if tag % 8 == 0 then
        match GetVar(rest, 0)
        case Stuck(fault) => Broken(fault)
        case Read(value, rest) => Entry(id, Some(value), rest)
      else if tag % 8 == 1 then Skip(id, rest, 8)
      else if tag % 8 == 5 then Skip(id, rest, 4)
      else if tag % 8 == 2 then
        match GetVar(rest, 0)
        case Stuck(fault) => Broken(fault)
        case Read(size, rest) => Skip(id, rest, size)
      else Broken(UnsupportedType)
  }

  function Skip(id: u32, rest: seq<byte>, size: nat): (r: FieldRead)
    ensures r.Entry? ==> |r.rest| <= |rest| && r.id == id
  {
    if size <= |rest| then Entry(id, None, rest[size..]) else Broken(TruncatedField)
  }

  datatype Outcome = Fine(fields: Fields) | Fail(fault: Fault)

  function Put(fields: Fields, id: u32, value: Option<u64>): Fields {
    if value.Some? then fields[id := value.value] else fields
  }

  /** The input read field by field, when count fields are read already. */
  function NumbersFrom(input: seq<byte>, fields: Fields, count: nat): Outcome
    decreases |input|
  {
    if input == [] then Fine(fields)
    else if count == FIELD_LIMIT then Fail(FieldLimit)
    else match GetField(input)
      case Broken(fault) => Fail(fault)
      case Entry(id, value, rest) => NumbersFrom(rest, Put(fields, id, value), count + 1)
  }

  /** `numbers`. */
  method Numbers(bytes: seq<byte>) returns (r: Outcome)
    ensures r == NumbersFrom(bytes, map[], 0)
  {
    hide GetVar;
    var input := bytes;
    var fields: Fields := map[];
    var count := 0;
    while input != []
      invariant count <= FIELD_LIMIT
      invariant NumbersFrom(input, fields, count) == NumbersFrom(bytes, map[], 0)
      decreases |input|
    {
      if count + 1 > FIELD_LIMIT {
        return Fail(FieldLimit);
      }
      LimitIsU64();
      var tag := ReadVar(input);
      if tag.Stuck? {
        return Fail(tag.fault);
      }
      var id := tag.value / 8;
      if id == 0 || id > MAX_FIELD {
        return Fail(InvalidTag);
      }
      var rest := tag.rest;
      var size: nat := 0;
      if tag.value % 8 == 0 {
        var value := ReadVar(rest);
        if value.Stuck? {
          return Fail(value.fault);
        }
        fields := fields[id := value.value];
        input := value.rest;
        count := count + 1;
        continue;
      } else if tag.value % 8 == 1 {
        size := 8;
      } else if tag.value % 8 == 5 {
        size := 4;
      } else if tag.value % 8 == 2 {
        var length := ReadVar(rest);
        if length.Stuck? {
          return Fail(length.fault);
        }
        size, rest := length.value, length.rest;
      } else {
        return Fail(UnsupportedType);
      }
      if size > |rest| {
        return Fail(TruncatedField);
      }
      input := rest[size..];
      count := count + 1;
    }
    return Fine(fields);
  }

  /** What a reader wants of a list of fields: each identifier with its last number. */
  function LastNumbers(fields: seq<Field>): Fields {
    if fields == [] then map[]
    else
      var last := fields[|fields| - 1];
      var before := LastNumbers(fields[..|fields| - 1]);
      if last.Number? then before[last.id := last.value] else before
  }

  predicate LegalField(f: Field) {
    1 <= f.id <= MAX_FIELD && (f.Bytes? ==> |f.data| < U64_SPAN)
  }

  function ValueOf(f: Field): Option<u64> {
    if f.Number? then Some(f.value) else None
  }

  /** One written field is read back whole, and a length-delimited one is skipped exactly. */
  lemma FieldRoundTrip(f: Field, rest: seq<byte>)
    requires LegalField(f)
    ensures PutField(f) + rest != []
    ensures GetField(PutField(f) + rest) == Entry(f.id, ValueOf(f), rest)
  {
    hide GetVar, PutVar;
    match f
    case Number(id, value) =>
      VarRoundTrip(id * 8, PutVar(value) + rest);
      VarRoundTrip(value, rest);
      assert PutField(f) + rest == PutVar(id * 8) + (PutVar(value) + rest);
    case Bytes(id, data) =>
      VarRoundTrip(id * 8 + 2, PutVar(|data|) + (data + rest));
      VarRoundTrip(|data|, data + rest);
      assert PutField(f) + rest == PutVar(id * 8 + 2) + (PutVar(|data|) + (data + rest));
      Joined(data, rest);
  }

  lemma {:induction false} NumbersOfRest(done: seq<Field>, left: seq<Field>)
    requires |done| + |left| <= FIELD_LIMIT && forall i :: 0 <= i < |left| ==> LegalField(left[i])
    ensures NumbersFrom(Finish(left), LastNumbers(done), |done|) == Fine(LastNumbers(done + left))
    decreases |left|
  {
    hide GetField, PutField;
    if left == [] {
      assert done + left == done;
    } else {
      FieldRoundTrip(left[0], Finish(left[1..]));
      NumbersOfRest(done + [left[0]], left[1..]);
      assert (done + [left[0]])[..|done|] == done;
      assert done + [left[0]] + left[1..] == done + left;
    }
  }

  /**
   Every message of at most 1024 numbers, byte strings and nested messages with legal identifiers is read without fault,
   and the reader's map has exactly the numbers' identifiers, each with its last value.
   */
  lemma NumbersRoundTrip(fields: seq<Field>)
    requires |fields| <= FIELD_LIMIT && forall i :: 0 <= i < |fields| ==> LegalField(fields[i])
    ensures NumbersFrom(Finish(fields), map[], 0) == Fine(LastNumbers(fields))
  {
    hide Finish, NumbersFrom;
    NumbersOfRest([], fields);
    assert [] + fields == fields;
  }

  predicate Names(f: Field, id: u32) {
    f.Number? && f.id == id
  }

  /** Place i holds the last number written for id. */
  ghost predicate IsLast(fields: seq<Field>, id: u32, i: nat, value: u64) {
    && i < |fields| && fields[i] == Number(id, value)
    && forall j :: i < j < |fields| ==> !Names(fields[j], id)
  }

  /** The map a list of fields stands for, said without recursion. */
  lemma {:induction false} LastNumbersMeans(fields: seq<Field>, id: u32)
    ensures id in LastNumbers(fields) ==> exists i: nat :: IsLast(fields, id, i, LastNumbers(fields)[id])
    ensures id !in LastNumbers(fields) ==> forall i :: 0 <= i < |fields| ==> !Names(fields[i], id)
  {
    if fields != [] {
      var n := |fields| - 1;
      var front := fields[..n];
      assert fields == front + [fields[n]];
      LastNumbersMeans(front, id);
      if Names(fields[n], id) {
        assert IsLast(fields, id, n, LastNumbers(fields)[id]);
      } else if id in LastNumbers(front) {
        var i: nat :| IsLast(front, id, i, LastNumbers(front)[id]);
        assert IsLast(fields, id, i, LastNumbers(fields)[id]);
      }
    }
  }
}
