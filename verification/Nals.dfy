/**
 Network abstraction layer (NAL) units inside ARPM/1 payloads, and the three hand-written walkers
 over them: the Rust producer's, the C++ consumer's, and the CarPlay receiver's keyframe test.
 A bit mask over a byte is written as the arithmetic it means (`b & 0x1f` is `b % 32`), and the
 mask of parameter sets seen so far is the set of its bits.
 */
module Nals {
  import opened Bytes

  datatype Codec = H264 | H265
  datatype Framing = AnnexB | LengthPrefixed

  const NAL_LIMIT := 1024

  /** The NAL unit type, when the unit has a legal header. */
  function NalType(nal: seq<byte>, codec: Codec): Option<nat> {
    if nal == [] || nal[0] >= 128 then None
    else match codec
      case H264 =>
        var kind := nal[0] % 32;
        if 0 < kind < 24 then Some(kind) else None
      case H265 =>
        if |nal| < 2 || nal[1] % 8 == 0 then None
        else
          var kind := (nal[0] / 2) % 64;
          if kind < 48 then Some(kind) else None
  }

  /** The bit a parameter set of this type contributes, or 0. */
  function ParameterBit(codec: Codec, kind: nat): nat {
    match codec
    case H264 => if kind == 7 then 1 else if kind == 8 then 2 else 0
    case H265 => if kind == 32 then 1 else if kind == 33 then 2 else if kind == 34 then 4 else 0
  }

  function RequiredBits(codec: Codec): set<nat> {
    if codec.H264? then {1, 2} else {1, 2, 4}
  }

  predicate IsKey(codec: Codec, kind: nat) {
    match codec
    case H264 => kind == 5
    case H265 => 16 <= kind <= 21
  }

  predicate IsPicture(codec: Codec, kind: nat) {
    match codec
    case H264 => 1 <= kind <= 5
    case H265 => kind <= 31
  }

  /** Length of the Annex B start code that bytes begins with, or 0. */
  function StartCode(bytes: seq<byte>): (n: nat)
    ensures n <= |bytes|
  {
    if |bytes| >= 3 && bytes[0] == 0 && bytes[1] == 0 && bytes[2] == 1 then 3
    else if |bytes| >= 4 && bytes[0] == 0 && bytes[1] == 0 && bytes[2] == 0 && bytes[3] == 1 then 4
    else 0
  }

  /** Distance to the first start code. */
  function UntilStart(bytes: seq<byte>): (n: nat)
    ensures n <= |bytes|
  {
    if bytes == [] || StartCode(bytes) != 0 then 0 else 1 + UntilStart(bytes[1..])
  }

  /** It is the first: no earlier position begins a start code, and position n does unless it is the end. */
  lemma {:induction false} UntilStartIsFirst(bytes: seq<byte>)
    ensures forall i {:trigger bytes[i..]} :: 0 <= i < UntilStart(bytes) ==> StartCode(bytes[i..]) == 0
    ensures UntilStart(bytes) < |bytes| ==> StartCode(bytes[UntilStart(bytes)..]) != 0
  {
    if bytes != [] && StartCode(bytes) == 0 {
      var n := UntilStart(bytes);
      UntilStartIsFirst(bytes[1..]);
      forall i | 0 <= i < n
        ensures StartCode(bytes[i..]) == 0
      {
        if i > 0 {
          Suffix(bytes, 1, i - 1);
        }
      }
      Suffix(bytes, 1, n - 1);
    }
  }

  /** The first NAL unit of a nonempty payload and what follows it. */
  function NextNal(bytes: seq<byte>, framing: Framing, length: nat): (r: Option<(seq<byte>, seq<byte>)>)
    requires bytes != []
    ensures r.Some? ==> |r.value.0| + |r.value.1| < |bytes|
  {
    match framing
    case AnnexB =>
      var prefix := StartCode(bytes);
      if prefix == 0 then None
      else
        var body := bytes[prefix..];
        var n := UntilStart(body);
        Some((body[..n], body[n..]))
    case LengthPrefixed =>
      if !(1 <= length <= 4) || |bytes| < length then None
      else
        var size := FromBig(bytes[..length]);
        var body := bytes[length..];
        if size > |body| then None else Some((body[..size], body[size..]))
  }

  /** The whole payload as a list of NAL units, or None when the framing does not tile it. */
  function Split(bytes: seq<byte>, framing: Framing, length: nat): Option<seq<seq<byte>>>
    decreases |bytes|
  {
    if bytes == [] then Some([])
    else match NextNal(bytes, framing, length)
      case None => None
      case Some((nal, rest)) => Prepend([nal], Split(rest, framing, length))
  }

  function Prepend<T>(done: seq<T>, rest: Option<seq<T>>): Option<seq<T>> {
    if rest.None? then None else Some(done + rest.value)
  }

  lemma PrependNothing<T>(rest: Option<seq<T>>)
    ensures Prepend([], rest) == rest
  {
    if rest.Some? {
      assert [] + rest.value == rest.value;
    }
  }

  lemma PrependTwice<T>(a: seq<T>, b: seq<T>, rest: Option<seq<T>>)
    ensures Prepend(a, Prepend(b, rest)) == Prepend(a + b, rest)
  {
    if rest.Some? {
      assert a + (b + rest.value) == (a + b) + rest.value;
    }
  }

  /** The printer that Split inverts for the length-prefixed framing. */
  function Join(nals: seq<seq<byte>>, length: nat): seq<byte> {
    if nals == [] then [] else BigEndian(|nals[0]|, length) + nals[0] + Join(nals[1..], length)
  }

  /** Split is the inverse of Join: it returns every list of units that fits the length field... */
  lemma {:induction false} SplitJoin(nals: seq<seq<byte>>, length: nat)
    requires 1 <= length <= 4
    requires forall nal :: nal in nals ==> |nal| < Span(length)
    ensures Split(Join(nals, length), LengthPrefixed, length) == Some(nals)
  {
    if nals != [] {
      var head := BigEndian(|nals[0]|, length);
      var tail := Join(nals[1..], length);
      var all := Join(nals, length);
      assert all == head + (nals[0] + tail);
      BigRoundTrip(|nals[0]|, length);
      assert all[..length] == head;
      assert all[length..] == nals[0] + tail;
      assert (nals[0] + tail)[..|nals[0]|] == nals[0];
      assert (nals[0] + tail)[|nals[0]|..] == tail;
      SplitJoin(nals[1..], length);
      assert [nals[0]] + nals[1..] == nals;
    }
  }

  /** ...and returns nothing that Join did not print. */
  lemma {:induction false} JoinSplit(bytes: seq<byte>, length: nat)
    requires Split(bytes, LengthPrefixed, length).Some?
    ensures Join(Split(bytes, LengthPrefixed, length).value, length) == bytes
    decreases |bytes|
  {
    if bytes != [] {
      var (nal, rest) := NextNal(bytes, LengthPrefixed, length).value;
      JoinSplit(rest, length);
      var nals := Split(bytes, LengthPrefixed, length).value;
      assert nals == [nal] + Split(rest, LengthPrefixed, length).value;
      assert nals[1..] == Split(rest, LengthPrefixed, length).value;
      BigOnto(bytes[..length]);
      assert bytes == bytes[..length] + nal + rest;
    }
  }

  predicate GoodNal(nal: seq<byte>, codec: Codec, config: bool) {
    var kind := NalType(nal, codec);
    kind.Some? && (config ==> ParameterBit(codec, kind.value) != 0)
  }

  function AsBits(bit: nat): set<nat> {
    if bit == 0 then {} else {bit}
  }

  function Bits(nal: seq<byte>, codec: Codec): set<nat> {
    var kind := NalType(nal, codec);
    if kind.None? then {} else AsBits(ParameterBit(codec, kind.value))
  }

  predicate KeyNal(nal: seq<byte>, codec: Codec) {
    NalType(nal, codec).Some? && IsKey(codec, NalType(nal, codec).value)
  }

  predicate PictureNal(nal: seq<byte>, codec: Codec) {
    NalType(nal, codec).Some? && IsPicture(codec, NalType(nal, codec).value)
  }

  /** Every parameter-set bit carried by some unit of the list. */
  function Seen(nals: seq<seq<byte>>, codec: Codec): set<nat> {
    set i, b | 0 <= i < |nals| && b in Bits(nals[i], codec) :: b
  }

  /** What both ends mean by a well-formed payload. */
  predicate WellFormed(bytes: seq<byte>, codec: Codec, framing: Framing, length: nat, config: bool) {
    var nals := Split(bytes, framing, length);
    && nals.Some?
    && 0 < |nals.value| <= NAL_LIMIT
    && (forall nal :: nal in nals.value ==> GoodNal(nal, codec, config))
    && (config ==> Seen(nals.value, codec) == RequiredBits(codec))
  }

  predicate HasKey(bytes: seq<byte>, codec: Codec, framing: Framing, length: nat) {
    var nals := Split(bytes, framing, length);
    nals.Some? && exists nal :: nal in nals.value && KeyNal(nal, codec)
  }

  predicate HasPicture(bytes: seq<byte>, codec: Codec, framing: Framing, length: nat) {
    var nals := Split(bytes, framing, length);
    nals.Some? && exists nal :: nal in nals.value && PictureNal(nal, codec)
  }

  /** What the producer learns about a payload while walking it. */
  datatype Summary = Summary(parameters: set<nat>, keyframe: bool, picture: bool)

  ghost function Summarize(nals: seq<seq<byte>>, codec: Codec): Summary {
    Summary(Seen(nals, codec),
            exists nal :: nal in nals && KeyNal(nal, codec),
            exists nal :: nal in nals && PictureNal(nal, codec))
  }

  lemma SummarizeStep(nals: seq<seq<byte>>, nal: seq<byte>, codec: Codec)
    ensures Summarize(nals + [nal], codec) ==
            Summary(Seen(nals, codec) + Bits(nal, codec),
                    Summarize(nals, codec).keyframe || KeyNal(nal, codec),
                    Summarize(nals, codec).picture || PictureNal(nal, codec))
  {
    SeenStep(nals, nal, codec);
    assert (nals + [nal])[|nals|] == nal;
  }

  lemma SeenStep(nals: seq<seq<byte>>, nal: seq<byte>, codec: Codec)
    ensures Seen(nals + [nal], codec) == Seen(nals, codec) + Bits(nal, codec)
  {
    var all := nals + [nal];
    forall b | b in Seen(nals, codec) + Bits(nal, codec)
      ensures b in Seen(all, codec)
    {
      if b in Seen(nals, codec) {
        var i :| 0 <= i < |nals| && b in Bits(nals[i], codec);
        assert all[i] == nals[i];
      } else {
        assert all[|nals|] == nal;
      }
    }
  }

  /** One turn of either walker: the units done so far, then one more, then the rest. */
  lemma WalkStep(bytes: seq<byte>, framing: Framing, length: nat, done: seq<seq<byte>>, rest: seq<byte>)
    requires rest != []
    requires Split(bytes, framing, length) == Prepend(done, Split(rest, framing, length))
    ensures NextNal(rest, framing, length).None? ==> Split(bytes, framing, length).None?
    ensures NextNal(rest, framing, length).Some? ==>
              var (nal, next) := NextNal(rest, framing, length).value;
              && Split(bytes, framing, length) == Prepend(done + [nal], Split(next, framing, length))
              && (Split(bytes, framing, length).Some? ==>
                    |Split(bytes, framing, length).value| > |done| && nal in Split(bytes, framing, length).value)
  {
    if NextNal(rest, framing, length).Some? {
      var (nal, next) := NextNal(rest, framing, length).value;
      PrependTwice(done, [nal], Split(next, framing, length));
      if Split(bytes, framing, length).Some? {
        assert Split(bytes, framing, length).value[|done|] == nal;
      }
    }
  }

  lemma WalkEnd(bytes: seq<byte>, framing: Framing, length: nat, done: seq<seq<byte>>)
    requires Split(bytes, framing, length) == Prepend(done, Split([], framing, length))
    ensures Split(bytes, framing, length) == Some(done)
  {
    assert done + [] == done;
  }

  /** The producer's walker (`inspect_nals`): it consumes the slice from the front. */
  method InspectNals(bytes: seq<byte>, codec: Codec, framing: Framing, length: nat, config: bool)
    returns (r: Option<Summary>)
    ensures r.Some? <==>
            (framing.LengthPrefixed? ==> length in {1, 2, 4}) && WellFormed(bytes, codec, framing, length, config)
    ensures r.Some? ==> r.value.keyframe == HasKey(bytes, codec, framing, length)
    ensures r.Some? ==> r.value.picture == HasPicture(bytes, codec, framing, length)
  {
    hide Split;
    var rest := bytes;
    var count := 0;
    var result := Summary({}, false, false);
    ghost var done: seq<seq<byte>> := [];
    PrependNothing(Split(bytes, framing, length));
    while rest != []
      invariant Split(bytes, framing, length) == Prepend(done, Split(rest, framing, length))
      invariant count == |done| <= NAL_LIMIT
      invariant done != [] && framing.LengthPrefixed? ==> length in {1, 2, 4}
      invariant forall nal :: nal in done ==> GoodNal(nal, codec, config)
      invariant result == Summarize(done, codec)
      decreases |rest|
    {
      WalkStep(bytes, framing, length, done, rest);
      count := count + 1;
      if count > NAL_LIMIT {
        return None;
      }
      var size: nat;
      match framing {
        case AnnexB =>
          var prefix := StartCode(rest);
          if prefix == 0 {
            return None;
          }
          rest := rest[prefix..];
          size := UntilStart(rest);
        case LengthPrefixed =>
          if length !in {1, 2, 4} || |rest| < length {
            return None;
          }
          size := FromBig(rest[..length]);
          rest := rest[length..];
          if size > |rest| {
            return None;
          }
      }
      var nal := rest[..size];
      var kind := NalType(nal, codec);
      if kind.None? {
        return None;
      }
      var bit := ParameterBit(codec, kind.value);
      if config && bit == 0 {
        return None;
      }
      SummarizeStep(done, nal, codec);
      result := Summary(
        result.parameters + AsBits(bit),
        result.keyframe || IsKey(codec, kind.value),
        result.picture || IsPicture(codec, kind.value));
      done := done + [nal];
      rest := rest[size..];
    }
    WalkEnd(bytes, framing, length, done);
    if count == 0 {
      return None;
    }
    if config && result.parameters != RequiredBits(codec) {
      return None;
    }
    return Some(result);
  }

  /** The inner Annex B loop: distance from begin to the next start code. */
  method ScanToStart(bytes: seq<byte>, begin: nat) returns (size: nat)
    requires begin <= |bytes|
    ensures size == UntilStart(bytes[begin..])
    ensures begin + size <= |bytes|
  {
    var end := begin;
    while end < |bytes| && StartCode(bytes[end..]) == 0
      invariant begin <= end <= |bytes|
      invariant UntilStart(bytes[begin..]) == end - begin + UntilStart(bytes[end..])
    {
      Suffix(bytes, end, 1);
      end := end + 1;
    }
    size := end - begin;
  }

  /** The framing part of one turn of the consumer's walker: where the next unit lies. */
  method ConsumerNext(bytes: seq<byte>, offset: nat, framing: Framing, length: nat)
    returns (found: bool, begin: nat, size: nat)
    requires offset < |bytes|
    ensures found <==> NextNal(bytes[offset..], framing, length).Some?
    ensures found ==> offset < begin <= begin + size <= |bytes|
    ensures found ==>
              NextNal(bytes[offset..], framing, length).value == (bytes[begin..begin + size], bytes[begin + size..])
  {
    found, begin, size := false, offset, 0;
    if framing.AnnexB? {
      var prefix := StartCode(bytes[offset..]);
      if prefix == 0 {
        return;
      }
      begin := offset + prefix;
      Suffix(bytes, offset, prefix);
      size := ScanToStart(bytes, begin);
    } else {
      if length < 1 || length > 4 || |bytes| - offset < length {
        return;
      }
      size := FromBig(bytes[offset..offset + length]);
      Suffix(bytes, offset, length);
      begin := offset + length;
      if size > |bytes| - begin {
        return;
      }
    }
    found := true;
    Suffix(bytes, begin, size);
  }

  /** The consumer's walker (`InspectNals`): it advances an offset. */
  method ConsumerInspectNals(bytes: seq<byte>, codec: Codec, framing: Framing, length: nat, config: bool)
    returns (ok: bool)
    ensures ok <==> WellFormed(bytes, codec, framing, length, config)
  {
    var parameters: set<nat> := {};
    var offset, count := 0, 0;
    ghost var done: seq<seq<byte>> := [];
    PrependNothing(Split(bytes, framing, length));
    ghost var rest := bytes;
    while offset < |bytes|
      invariant offset <= |bytes| && rest == bytes[offset..]
      invariant Split(bytes, framing, length) == Prepend(done, Split(rest, framing, length))
      invariant count == |done| <= NAL_LIMIT
      invariant forall nal :: nal in done ==> GoodNal(nal, codec, config)
      invariant parameters == Seen(done, codec)
    {
      WalkStep(bytes, framing, length, done, rest);
      count := count + 1;
      if count > NAL_LIMIT {
        return false;
      }
      var found, begin, size := ConsumerNext(bytes, offset, framing, length);
      if !found {
        return false;
      }
      offset := begin;
      ghost var next := bytes[begin + size..];
      var nal := bytes[offset..offset + size];
      var kind := NalType(nal, codec);
      if kind.None? {
        return false;
      }
      var bit := ParameterBit(codec, kind.value);
      if config && bit == 0 {
        return false;
      }
      SeenStep(done, nal, codec);
      parameters := parameters + AsBits(bit);
      done := done + [nal];
      offset := offset + size;
      rest := next;
    }
    WalkEnd(bytes, framing, length, done);
    return count != 0 && (!config || parameters == RequiredBits(codec));
  }

  /** The receiver's keyframe test (`is_keyframe`): None is its error result. */
  method IsKeyframe(bytes: seq<byte>, length: nat) returns (r: Option<bool>)
    ensures r.Some? <==>
            && length in {1, 2, 4}
            && var nals := Split(bytes, LengthPrefixed, length);
               nals.Some? && |nals.value| <= NAL_LIMIT && forall nal :: nal in nals.value ==> nal != []
    ensures r.Some? ==>
              var nals := Split(bytes, LengthPrefixed, length).value;
              r.value <==> exists nal :: nal in nals && nal != [] && nal[0] % 32 == 5
  {
    if length !in {1, 2, 4} {
      return None;
    }
    var rest := bytes;
    var key := false;
    var count := 0;
    ghost var done: seq<seq<byte>> := [];
    PrependNothing(Split(bytes, LengthPrefixed, length));
    while rest != []
      invariant Split(bytes, LengthPrefixed, length) == Prepend(done, Split(rest, LengthPrefixed, length))
      invariant count == |done| <= NAL_LIMIT
      invariant forall nal :: nal in done ==> nal != []
      invariant key <==> exists nal :: nal in done && nal != [] && nal[0] % 32 == 5
      decreases |rest|
    {
      WalkStep(bytes, LengthPrefixed, length, done, rest);
      count := count + 1;
      if count > NAL_LIMIT {
        return None;
      }
      if |rest| < length {
        return None;
      }
      var size := FromBig(rest[..length]);
      rest := rest[length..];
      if size == 0 || size > |rest| {
        return None;
      }
      key := key || rest[0] % 32 == 5;
      done := done + [rest[..size]];
      rest := rest[size..];
    }
    return Some(key);
  }

  /** Length fields of 3 bytes are the one place where the two walkers differ: only the consumer reads them. */
  lemma ThreeByteLengthsDiffer()
    ensures WellFormed([0, 0, 1, 0x65], H264, LengthPrefixed, 3, false)
  {
    var unit := [0, 0, 1, 0x65];
    assert unit == Join([[0x65]], 3) by {
      assert BigEndian(1, 3) == [0, 0, 1];
      assert [[0x65]][1..] == [];
    }
    Spans();
    SplitJoin([[0x65]], 3);
  }

  /**
   The receiver cannot publish a wrong keyframe flag: whenever the producer's walker accepts a
   length-prefixed H.264 unit, the keyframe test succeeds on it with the walker's own answer.
   */
  method KeyframeTestAgrees(bytes: seq<byte>, length: nat) returns (summary: Option<Summary>, key: Option<bool>)
    ensures summary.Some? ==> key == Some(summary.value.keyframe)
    ensures summary.Some? <==> length in {1, 2, 4} && WellFormed(bytes, H264, LengthPrefixed, length, false)
  {
    summary := InspectNals(bytes, H264, LengthPrefixed, length, false);
    key := IsKeyframe(bytes, length);
    if summary.Some? {
      var nals := Split(bytes, LengthPrefixed, length).value;
      forall nal | nal in nals
        ensures nal != [] && (KeyNal(nal, H264) <==> nal[0] % 32 == 5)
      {
        assert GoodNal(nal, H264, false);
      }
    }
  }
}
