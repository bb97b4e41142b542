/** The type-length-value lists of pairing: values longer than 255 bytes are cut into pieces that follow each other. */
module Tlv {
  import opened Bytes
  import opened Chunking

  const PIECE: nat := 255
  const SIZE_LIMIT: nat := 8192
  const KIND_LIMIT: nat := 16

  datatype Field = Field(kind: byte, value: seq<byte>)

  type Fields = map<byte, seq<byte>>

  function PieceBytes(kind: byte, piece: seq<byte>): seq<byte> {
    [kind, |piece| % 256] + piece
  }

  function PiecesBytes(kind: byte, pieces: seq<seq<byte>>): seq<byte> {
    if pieces == [] then [] else PieceBytes(kind, pieces[0]) + PiecesBytes(kind, pieces[1..])
  }

  /** An empty value still has a piece. */
  function PiecesOf(value: seq<byte>): (r: seq<seq<byte>>)
    ensures r != []
  {
    if value == [] then [[]] else Chunks(value, PIECE)
  }

  function FieldBytes(f: Field): seq<byte> {
    PiecesBytes(f.kind, PiecesOf(f.value))
  }

  function Print(fields: seq<Field>): seq<byte> {
    if fields == [] then []
    else Print(fields[..|fields| - 1]) + FieldBytes(fields[|fields| - 1])
  }

  predicate DistinctKinds(fields: seq<Field>) {
    forall i, j :: 0 <= i < j < |fields| ==> fields[i].kind != fields[j].kind
  }

  function Encode(fields: seq<Field>): Result<seq<byte>> {
    if !DistinctKinds(fields) then Err(Malformed)
    else if |Print(fields)| > SIZE_LIMIT then Err(Bounds)
    else Ok(Print(fields))
  }

  lemma PiecesSnoc(kind: byte, pieces: seq<seq<byte>>, i: nat)
    requires i < |pieces|
    ensures PiecesBytes(kind, pieces[i..]) == PieceBytes(kind, pieces[i]) + PiecesBytes(kind, pieces[i + 1..])
  {
    assert pieces[i..][1..] == pieces[i + 1..];
  }

  /** The pieces of one field. */
  method EncodeField(f: Field) returns (output: seq<byte>)
    ensures output == FieldBytes(f)
  {
    hide PieceBytes, Chunks;
    output := [];
    if f.value == [] {
      output := output + PieceBytes(f.kind, []);
      OnePiece(f.kind, []);
      return;
    }
    var pieces := Chunks(f.value, PIECE);
    assert pieces[0..] == pieces;
    for n := 0 to |pieces|
      invariant output + PiecesBytes(f.kind, pieces[n..]) == PiecesBytes(f.kind, pieces)
    {
      PiecesSnoc(f.kind, pieces, n);
      assert output + (PieceBytes(f.kind, pieces[n]) + PiecesBytes(f.kind, pieces[n + 1..]))
          == output + PieceBytes(f.kind, pieces[n]) + PiecesBytes(f.kind, pieces[n + 1..]);
      output := output + PieceBytes(f.kind, pieces[n]);
    }
    assert output + [] == output;
  }

  /** `encode_tlv`. */
  method EncodeTlv(fields: seq<Field>) returns (r: Result<seq<byte>>)
    ensures r == Encode(fields)
  {
    hide FieldBytes;
    var output := [];
    var seen := new bool[256](_ => false);
    for i := 0 to |fields|
      invariant DistinctKinds(fields[..i])
      invariant forall k: byte :: seen[k] <==> exists j :: 0 <= j < i && fields[j].kind == k
      invariant output == Print(fields[..i])
    {
      var f := fields[i];
      if seen[f.kind] {
        return Err(Malformed);
      }
      seen[f.kind] := true;
      assert fields[..i + 1][..i] == fields[..i];
      var bytes := EncodeField(f);
      output := output + bytes;
    }
    assert fields[..|fields|] == fields;
    if |output| > SIZE_LIMIT {
      return Err(Bounds);
    }
    return Ok(output);
  }

  lemma OnePiece(kind: byte, piece: seq<byte>)
    ensures PiecesBytes(kind, [piece]) == PieceBytes(kind, piece)
  {
    assert PiecesBytes(kind, [piece][1..]) == [];
  }

  function ValueSoFar(fields: Fields, kind: byte): seq<byte> {
    if kind in fields then fields[kind] else []
  }

  /** The rest of a list, after fields, of which the last piece was previous. */
  function DecodeFrom(bytes: seq<byte>, fields: Fields, previous: Option<(byte, nat)>): Result<Fields>
    decreases |bytes|
  {
    if bytes == [] then Ok(fields)
    else if |bytes| < 2 || |bytes| - 2 < bytes[1] then Err(Malformed)
    else
      var (kind, length) := (bytes[0], bytes[1]);
      if kind in fields && previous != Some((kind, PIECE)) then Err(Malformed)
      else
        var fields := fields[kind := ValueSoFar(fields, kind) + bytes[2..2 + length]];
        if |fields| > KIND_LIMIT then Err(Bounds)
        else DecodeFrom(bytes[2 + length..], fields, Some((kind, length)))
  }

  function Decode(bytes: seq<byte>): Result<Fields> {
    if |bytes| > SIZE_LIMIT then Err(Bounds) else DecodeFrom(bytes, map[], None)
  }

  /** One turn of the decoder's loop. */
  lemma DecodeStep(bytes: seq<byte>, offset: nat, fields: Fields, previous: Option<(byte, nat)>)
    requires offset < |bytes|
    ensures DecodeFrom(bytes[offset..], fields, previous)
         == if offset + 2 > |bytes| || offset + 2 + bytes[offset + 1] as int > |bytes| then Err(Malformed)
            else
              var (kind, length) := (bytes[offset], bytes[offset + 1]);
              if kind in fields && previous != Some((kind, PIECE)) then Err(Malformed)
              else
                var fields := fields[kind := ValueSoFar(fields, kind) + bytes[offset + 2..offset + 2 + length]];
                if |fields| > KIND_LIMIT then Err(Bounds)
                else DecodeFrom(bytes[offset + 2 + length..], fields, Some((kind, length)))
  {
    hide ValueSoFar;
    var left := bytes[offset..];
    if offset + 2 <= |bytes| && offset + 2 + bytes[offset + 1] as int <= |bytes| {
      var length := left[1];
      assert left[2..2 + length] == bytes[offset + 2..offset + 2 + length];
      assert left[2 + length..] == bytes[offset + 2 + length..];
    }
  }

  /** `decode_tlv`. */
  method DecodeTlv(bytes: seq<byte>) returns (r: Result<Fields>)
    ensures r == Decode(bytes)
  {
    hide DecodeFrom, ValueSoFar;
    if |bytes| > SIZE_LIMIT {
      return Err(Bounds);
    }
    var fields: Fields := map[];
    var offset := 0;
    var previous: Option<(byte, nat)> := None;
    assert bytes[0..] == bytes;
    while offset < |bytes|
      invariant offset <= |bytes|
      invariant DecodeFrom(bytes[offset..], fields, previous) == DecodeFrom(bytes, map[], None)
    {
      DecodeStep(bytes, offset, fields, previous);
      if offset + 2 > |bytes| {
        return Err(Malformed);
      }
      var kind, length: nat := bytes[offset], bytes[offset + 1];
      if offset + 2 + length > |bytes| {
        return Err(Malformed);
      }
      if kind in fields && previous != Some((kind, PIECE)) {
        return Err(Malformed);
      }
      fields := fields[kind := ValueSoFar(fields, kind) + bytes[offset + 2..offset + 2 + length]];
      if |fields| > KIND_LIMIT {
        return Err(Bounds);
      }
      previous := Some((kind, length));
      offset := offset + 2 + length;
    }
    DecodesNothing(fields, previous);
    assert bytes[offset..] == [];
    return Ok(fields);
  }

  /** The map a list of fields with distinct kinds stands for. */
  function MapOf(fields: seq<Field>): Fields {
    if fields == [] then map[]
    else MapOf(fields[..|fields| - 1])[fields[|fields| - 1].kind := fields[|fields| - 1].value]
  }

  // ---- Reading back ----

  /** Every piece but the last is full, so each says that another follows. */
  predicate Chained(pieces: seq<seq<byte>>) {
    forall i :: 0 <= i < |pieces| ==> |pieces[i]| <= PIECE && (i + 1 < |pieces| ==> |pieces[i]| == PIECE)
  }

  lemma {:induction false} ChunksChained(value: seq<byte>)
    ensures Chained(Chunks(value, PIECE))
    decreases |value|
  {
    if |value| > PIECE {
      ChunksChained(value[PIECE..]);
    }
  }

  lemma PiecesChained(value: seq<byte>)
    ensures Chained(PiecesOf(value)) && Concat(PiecesOf(value)) == value
  {
    ChunksChained(value);
    ChunksJoin(value, PIECE);
    if value == [] {
      assert Concat([[]][1..]) == [];
    }
  }

  /** One piece at the front of the list. */
  lemma PieceDecodes(
    kind: byte, piece: seq<byte>, rest: seq<byte>, fields: Fields, previous: Option<(byte, nat)>)
    requires |piece| <= PIECE && (kind in fields ==> previous == Some((kind, PIECE)))
    ensures var fields' := fields[kind := ValueSoFar(fields, kind) + piece];
            && DecodeFrom(PieceBytes(kind, piece) + rest, fields, previous)
               == if |fields'| > KIND_LIMIT then Err(Bounds) else DecodeFrom(rest, fields', Some((kind, |piece|)))
  {
    var bytes := PieceBytes(kind, piece) + rest;
    PieceStart(kind, piece, rest);
    hide PieceBytes, ValueSoFar;
  }

  lemma PieceStart(kind: byte, piece: seq<byte>, rest: seq<byte>)
    requires |piece| <= PIECE
    ensures var bytes := PieceBytes(kind, piece) + rest;
            && |bytes| == 2 + |piece| + |rest| && bytes[0] == kind && bytes[1] == |piece|
            && bytes[2..2 + |piece|] == piece && bytes[2 + |piece|..] == rest
  {
  }

  /** The pieces of a value, when the first of them may stand where it does. */
  lemma {:induction false} PiecesDecode(
    kind: byte, pieces: seq<seq<byte>>, rest: seq<byte>, fields: Fields, previous: Option<(byte, nat)>)
    requires Chained(pieces) && pieces != []
    requires kind in fields ==> previous == Some((kind, PIECE))
    ensures var fields' := fields[kind := ValueSoFar(fields, kind) + Concat(pieces)];
            && DecodeFrom(PiecesBytes(kind, pieces) + rest, fields, previous)
               == if |fields'| > KIND_LIMIT then Err(Bounds)
                  else DecodeFrom(rest, fields', Some((kind, |pieces[|pieces| - 1]|)))
    decreases |pieces|
  {
    hide PieceBytes, DecodeFrom, ValueSoFar;
    var piece, tail := pieces[0], pieces[1..];
    var bytes := PiecesBytes(kind, tail) + rest;
    assert PiecesBytes(kind, pieces) + rest == PieceBytes(kind, piece) + bytes;
    PieceDecodes(kind, piece, bytes, fields, previous);
    var fields1 := fields[kind := ValueSoFar(fields, kind) + piece];
    var fields2 := fields[kind := ValueSoFar(fields, kind) + Concat(pieces)];
    assert fields1.Keys == fields2.Keys;
    SameSize(fields1, fields2);
    if tail == [] {
      assert Concat(tail) == [] && Concat(pieces) == piece;
      assert bytes == rest;
    } else {
      PiecesDecode(kind, tail, rest, fields1, Some((kind, |piece|)));
      assert ValueSoFar(fields1, kind) == fields1[kind] by { HasValue(fields1, kind); }
      assert ValueSoFar(fields, kind) + piece + Concat(tail) == ValueSoFar(fields, kind) + Concat(pieces);
      assert fields1[kind := ValueSoFar(fields, kind) + Concat(pieces)] == fields2;
    }
  }

  lemma HasValue(fields: Fields, kind: byte)
    requires kind in fields
    ensures ValueSoFar(fields, kind) == fields[kind]
  {
  }

  lemma SameSize(a: Fields, b: Fields)
    requires a.Keys == b.Keys
    ensures |a| == |b|
  {
    assert |a.Keys| == |a| && |b.Keys| == |b|;
  }

  ghost predicate Has(fields: seq<Field>, kind: byte) {
    exists i :: 0 <= i < |fields| && fields[i].kind == kind
  }

  lemma {:induction false} MapOfKeys(fields: seq<Field>, kind: byte)
    ensures kind in MapOf(fields) <==> Has(fields, kind)
  {
    if fields != [] {
      var n := |fields| - 1;
      MapOfKeys(fields[..n], kind);
      assert forall i :: 0 <= i < n ==> fields[..n][i] == fields[i];
    }
  }

  lemma {:induction false} MapOfSize(fields: seq<Field>)
    requires DistinctKinds(fields)
    ensures |MapOf(fields)| == |fields|
  {
    if fields != [] {
      var n := |fields| - 1;
      MapOfSize(fields[..n]);
      MapOfKeys(fields[..n], fields[n].kind);
      Grow(MapOf(fields[..n]), fields[n].kind, fields[n].value);
    }
  }

  lemma Grow(m: Fields, kind: byte, value: seq<byte>)
    requires kind !in m
    ensures |m[kind := value]| == |m| + 1
  {
    assert m[kind := value].Keys == m.Keys + {kind};
    assert |m[kind := value].Keys| == |m[kind := value]| && |m.Keys| == |m|;
  }

  /** The map holds every field's value under its kind. */
  lemma {:induction false} MapOfHolds(fields: seq<Field>, i: nat)
    requires DistinctKinds(fields) && i < |fields|
    ensures fields[i].kind in MapOf(fields) && MapOf(fields)[fields[i].kind] == fields[i].value
  {
    var n := |fields| - 1;
    if i < n {
      MapOfHolds(fields[..n], i);
    }
  }

  function LastPiece(fields: seq<Field>): Option<(byte, nat)> {
    if fields == [] then None
    else
      var f := fields[|fields| - 1];
      Some((f.kind, |PiecesOf(f.value)[|PiecesOf(f.value)| - 1]|))
  }

  /** One field of a kind that is new. */
  lemma FieldDecodes(f: Field, rest: seq<byte>, fields: Fields, previous: Option<(byte, nat)>)
    requires f.kind !in fields
    ensures DecodeFrom(FieldBytes(f) + rest, fields, previous)
         == if |fields| >= KIND_LIMIT then Err(Bounds)
            else DecodeFrom(rest, fields[f.kind := f.value], LastPiece([f]))
  {
    hide PiecesOf, DecodeFrom;
    PiecesChained(f.value);
    PiecesDecode(f.kind, PiecesOf(f.value), rest, fields, previous);
    Grow(fields, f.kind, f.value);
    assert [] + f.value == f.value;
  }

  /** The first fields, up to 16 of them, with anything behind. */
  lemma {:induction false} FrontDecodes(fields: seq<Field>, rest: seq<byte>)
    requires DistinctKinds(fields) && |fields| <= KIND_LIMIT
    ensures DecodeFrom(Print(fields) + rest, map[], None) == DecodeFrom(rest, MapOf(fields), LastPiece(fields))
  {
    hide DecodeFrom, FieldBytes, PiecesOf;
    if fields == [] {
      assert Print(fields) + rest == rest;
    } else {
      var n := |fields| - 1;
      var front, f := fields[..n], fields[n];
      assert Print(fields) + rest == Print(front) + (FieldBytes(f) + rest);
      FrontDecodes(front, FieldBytes(f) + rest);
      MapOfSize(front);
      MapOfKeys(front, f.kind);
      FieldDecodes(f, rest, MapOf(front), LastPiece(front));
      assert LastPiece([f]) == LastPiece(fields);
    }
  }

  lemma {:induction false} PrintFront(fields: seq<Field>, n: nat) returns (rest: seq<byte>)
    requires n <= |fields|
    ensures Print(fields) == Print(fields[..n]) + rest
  {
    hide FieldBytes;
    if n == |fields| {
      rest := [];
      assert fields[..n] == fields && Print(fields) + [] == Print(fields);
    } else {
      var last := |fields| - 1;
      var more := PrintFront(fields[..last], n);
      assert fields[..last][..n] == fields[..n];
      rest := more + FieldBytes(fields[last]);
      assert Print(fields[..n]) + more + FieldBytes(fields[last]) == Print(fields[..n]) + rest;
    }
  }

  /**
   What the encoder makes of a list is decoded to the same fields exactly when the list has at most 16; the encoder
   accepts longer lists, which the decoder refuses.
   */
  lemma TlvRoundTrip(fields: seq<Field>)
    requires Encode(fields).Ok?
    ensures Decode(Encode(fields).value) == if |fields| <= KIND_LIMIT then Ok(MapOf(fields)) else Err(Bounds)
  {
    hide DecodeFrom, Print, FieldBytes;
    if |fields| <= KIND_LIMIT {
      FrontDecodes(fields, []);
      assert Print(fields) + [] == Print(fields);
      DecodesNothing(MapOf(fields), LastPiece(fields));
    } else {
      var front, f := fields[..KIND_LIMIT], fields[KIND_LIMIT];
      var rest := PrintFront(fields, KIND_LIMIT + 1);
      PrintOneMore(fields, KIND_LIMIT);
      assert Print(fields) == Print(front) + (FieldBytes(f) + rest);
      FrontDecodes(front, FieldBytes(f) + rest);
      MapOfSize(front);
      MapOfKeys(front, f.kind);
      FieldDecodes(f, rest, MapOf(front), LastPiece(front));
    }
  }

  lemma DecodesNothing(fields: Fields, previous: Option<(byte, nat)>)
    ensures DecodeFrom([], fields, previous) == Ok(fields)
  {
  }

  lemma PrintOneMore(fields: seq<Field>, n: nat)
    requires n < |fields|
    ensures Print(fields[..n + 1]) == Print(fields[..n]) + FieldBytes(fields[n])
  {
    assert fields[..n + 1][..n] == fields[..n];
  }

  /** n fields of different kinds, all empty. */
  function EmptyFields(n: nat): (r: seq<Field>)
    requires n <= 256
    ensures |r| == n && forall i :: 0 <= i < n ==> r[i] == Field(i, [])
  {
    seq(n, i requires 0 <= i < n => Field(i, []))
  }

  lemma {:induction false} EmptyFieldsPrint(n: nat)
    requires n <= 256
    ensures |Print(EmptyFields(n))| == 2 * n
  {
    hide Print, FieldBytes, EmptyFields;
    var fields := EmptyFields(n);
    if n == 0 {
      PrintNothing();
    } else {
      EmptyFieldsPrint(n - 1);
      EmptyFieldPrints(n - 1);
      PrintOneMore(fields, n - 1);
      assert fields[..n] == fields && fields[..n - 1] == EmptyFields(n - 1);
    }
  }

  lemma PrintNothing()
    ensures Print([]) == []
  {
  }

  lemma EmptyFieldPrints(kind: byte)
    ensures |FieldBytes(Field(kind, []))| == 2
  {
    hide PiecesBytes;
    OnePiece(kind, []);
  }

  /** The condition is needed: the encoder accepts 17 kinds with empty values, the decoder refuses what it prints. */
  lemma SeventeenKindsAreRefused()
    ensures Encode(EmptyFields(17)).Ok?
    ensures Decode(Encode(EmptyFields(17)).value) == Err(Bounds)
  {
    hide Decode, Print, EmptyFields;
    EmptyFieldsPrint(17);
    assert DistinctKinds(EmptyFields(17));
    TlvRoundTrip(EmptyFields(17));
  }
}
