/**
 What decoder configuration records are, independently of how either end reads them: the printed form of lists of
 parameter sets (ISO/IEC 14496-15:2017, sections 5.3.3.1 and 8.3.3.1). Both ends accept exactly these.
 */
module ConfigRecords {
  import opened Bytes
  import opened Nals
  import opened CodecConfig

  /** Units in a row, each behind its 16-bit length. */
  function PrintUnits(units: seq<seq<byte>>): seq<byte> {
    if units == [] then [] else Word(|units[0]|) + units[0] + PrintUnits(units[1..])
  }

  predicate UnitsOf(units: seq<seq<byte>>, kind: nat, codec: Codec) {
    forall i :: 0 <= i < |units| ==> |units[i]| <= 0xffff && NalType(units[i], codec) == Some(kind)
  }

  /** The parameter-set bits that units of one kind contribute. */
  function BitsOf(units: seq<seq<byte>>, kind: nat, codec: Codec): set<nat> {
    if units == [] then {} else AsBits(ParameterBit(codec, kind))
  }

  /** The cursor after units have been read from it. */
  function After(c: Cursor, units: seq<seq<byte>>, kind: nat, codec: Codec): Cursor {
    Cursor(c.offset + |PrintUnits(units)|, c.count + |units|, c.seen + BitsOf(units, kind, codec))
  }

  /** The bytes from a cursor on begin with part. */
  predicate Follows(bytes: seq<byte>, offset: nat, part: seq<byte>) {
    offset + |part| <= |bytes| && bytes[offset..offset + |part|] == part
  }

  lemma FollowsSplit(bytes: seq<byte>, offset: nat, a: seq<byte>, b: seq<byte>)
    ensures Follows(bytes, offset, a + b) <==> Follows(bytes, offset, a) && Follows(bytes, offset + |a|, b)
  {
    if offset + |a| + |b| <= |bytes| {
      var both := bytes[offset..offset + |a| + |b|];
      assert both[..|a|] == bytes[offset..offset + |a|] && both[|a|..] == bytes[offset + |a|..offset + |a| + |b|];
      Joined(a, b);
      assert both == both[..|a|] + both[|a|..];
    }
  }

  /** Reading the first unit and then the rest is reading them all. */
  lemma AfterFirst(c: Cursor, units: seq<seq<byte>>, kind: nat, codec: Codec)
    requires units != []
    ensures After(Cursor(c.offset + 2 + |units[0]|, c.count + 1, c.seen + AsBits(ParameterBit(codec, kind))),
                  units[1..], kind, codec)
         == After(c, units, kind, codec)
  {
    hide AsBits, ParameterBit, Word;
  }

  lemma OneUnit(bytes: seq<byte>, c: Cursor, unit: seq<byte>, kind: nat, codec: Codec)
    requires c.offset <= |bytes| && c.count < NAL_LIMIT
    requires Follows(bytes, c.offset, Word(|unit|) + unit)
    requires |unit| <= 0xffff && NalType(unit, codec) == Some(kind)
    ensures TakeOne(bytes, c, kind, codec)
         == Some(Cursor(c.offset + 2 + |unit|, c.count + 1, c.seen + AsBits(ParameterBit(codec, kind))))
  {
    hide NalType, ParameterBit, Word;
    FollowsSplit(bytes, c.offset, Word(|unit|), unit);
    assert bytes[c.offset..c.offset + 2][0] == bytes[c.offset];
    assert bytes[c.offset..c.offset + 2][1] == bytes[c.offset + 1];
  }

  /** Printed units of the kind asked for are taken. */
  lemma {:induction false} TakePrinted(bytes: seq<byte>, c: Cursor, units: seq<seq<byte>>, kind: nat, codec: Codec)
    requires c.offset <= |bytes| && c.count + |units| <= NAL_LIMIT
    requires Follows(bytes, c.offset, PrintUnits(units)) && UnitsOf(units, kind, codec)
    ensures Take(bytes, c, |units|, kind, codec) == Some(After(c, units, kind, codec))
    decreases |units|
  {
    hide NalType, ParameterBit, AsBits, TakeOne, Follows, Word, After;
    if units == [] {
      AfterNothing(c, kind, codec);
    } else {
      var unit := units[0];
      FollowsSplit(bytes, c.offset, Word(|unit|) + unit, PrintUnits(units[1..]));
      OneUnit(bytes, c, unit, kind, codec);
      var next := TakeOne(bytes, c, kind, codec).value;
      TakePrinted(bytes, next, units[1..], kind, codec);
      AfterFirst(c, units, kind, codec);
    }
  }

  lemma UnitTaken(bytes: seq<byte>, c: Cursor, kind: nat, codec: Codec) returns (unit: seq<byte>)
    requires c.offset <= |bytes| && TakeOne(bytes, c, kind, codec).Some?
    ensures |unit| <= 0xffff && NalType(unit, codec) == Some(kind)
    ensures Follows(bytes, c.offset, Word(|unit|) + unit) && c.count < NAL_LIMIT
    ensures TakeOne(bytes, c, kind, codec).value
         == Cursor(c.offset + 2 + |unit|, c.count + 1, c.seen + AsBits(ParameterBit(codec, kind)))
  {
    hide NalType, ParameterBit;
    var size := U16(bytes[c.offset], bytes[c.offset + 1]);
    unit := bytes[c.offset + 2..c.offset + 2 + size];
    WordOnto(bytes[c.offset], bytes[c.offset + 1]);
    assert bytes[c.offset..c.offset + 2 + size] == [bytes[c.offset], bytes[c.offset + 1]] + unit;
  }

  /** And whatever is taken is printed units of that kind. */
  lemma {:induction false} TakenIsPrinted(bytes: seq<byte>, c: Cursor, n: nat, kind: nat, codec: Codec)
    returns (units: seq<seq<byte>>)
    requires c.offset <= |bytes| && c.count <= NAL_LIMIT && Take(bytes, c, n, kind, codec).Some?
    ensures |units| == n && UnitsOf(units, kind, codec) && c.count + n <= NAL_LIMIT
    ensures Follows(bytes, c.offset, PrintUnits(units))
    ensures Take(bytes, c, n, kind, codec) == Some(After(c, units, kind, codec))
    decreases n
  {
    hide NalType, ParameterBit, AsBits, TakeOne, Follows, Word, After;
    if n == 0 {
      units := [];
      FollowsNothing(bytes, c.offset);
      AfterNothing(c, kind, codec);
    } else {
      var unit := UnitTaken(bytes, c, kind, codec);
      var rest := TakenIsPrinted(bytes, TakeOne(bytes, c, kind, codec).value, n - 1, kind, codec);
      units := [unit] + rest;
      assert units[1..] == rest;
      FollowsSplit(bytes, c.offset, Word(|unit|) + unit, PrintUnits(rest));
      AfterFirst(c, units, kind, codec);
    }
  }

  lemma AfterNothing(c: Cursor, kind: nat, codec: Codec)
    ensures After(c, [], kind, codec) == c
  {
  }

  lemma FollowsNothing(bytes: seq<byte>, offset: nat)
    requires offset <= |bytes|
    ensures Follows(bytes, offset, [])
  {
  }

  // ---- H.264 ----

  /** The optional end of a high-profile record: three bytes with reserved bits, and SPS extensions. */
  datatype Extension = Extension(chroma: byte, luma: byte, depth: byte, units: seq<seq<byte>>)

  datatype AvcRecord = AvcRecord(
    profile: byte, compatibility: byte, level: byte, length: nat, sps: seq<seq<byte>>, pps: seq<seq<byte>>,
    extension: Option<Extension>)

  function ExtensionUnits(r: AvcRecord): seq<seq<byte>> {
    if r.extension.Some? then r.extension.value.units else []
  }

  predicate LegalAvc(r: AvcRecord) {
    && r.length in {1, 2, 4}
    && 0 < |r.sps| <= 31 && UnitsOf(r.sps, 7, H264)
    && 0 < |r.pps| <= 255 && UnitsOf(r.pps, 8, H264)
    && (r.extension.Some? ==>
          && r.profile in {100, 110, 122, 144}
          && r.extension.value.chroma >= 252 && r.extension.value.luma >= 248 && r.extension.value.depth >= 248
          && |r.extension.value.units| <= 255 && UnitsOf(r.extension.value.units, 13, H264))
  }

  function PrintExtension(e: Option<Extension>): seq<byte> {
    if e.None? then []
    else [e.value.chroma, e.value.luma, e.value.depth, |e.value.units| % 256] + PrintUnits(e.value.units)
  }

  function PrintAvc(r: AvcRecord): seq<byte>
    requires LegalAvc(r)
  {
    AvcHead(r) + PrintUnits(r.sps) + [|r.pps|] + PrintUnits(r.pps) + PrintExtension(r.extension)
  }

  function AvcHead(r: AvcRecord): seq<byte>
    requires LegalAvc(r)
  {
    [1, r.profile, r.compatibility, r.level, 251 + r.length, 224 + |r.sps|]
  }

  /** A printed record, part by part. */
  lemma AvcParts(bytes: seq<byte>, r: AvcRecord)
    requires LegalAvc(r)
    ensures Follows(bytes, 0, PrintAvc(r)) <==>
              var s, p := |PrintUnits(r.sps)|, |PrintUnits(r.pps)|;
              && Follows(bytes, 0, AvcHead(r))
              && Follows(bytes, 6, PrintUnits(r.sps))
              && Follows(bytes, 6 + s, [|r.pps|])
              && Follows(bytes, 7 + s, PrintUnits(r.pps))
              && Follows(bytes, 7 + s + p, PrintExtension(r.extension))
    ensures |PrintAvc(r)| == 7 + |PrintUnits(r.sps)| + |PrintUnits(r.pps)| + |PrintExtension(r.extension)|
  {
    hide UnitsOf, PrintUnits, PrintExtension, Follows;
    var s, p, e := PrintUnits(r.sps), PrintUnits(r.pps), PrintExtension(r.extension);
    assert PrintAvc(r) == AvcHead(r) + (s + ([|r.pps|] + (p + e)));
    FollowsSplit(bytes, 0, AvcHead(r), s + ([|r.pps|] + (p + e)));
    FollowsSplit(bytes, 6, s, [|r.pps|] + (p + e));
    FollowsSplit(bytes, 6 + |s|, [|r.pps|], p + e);
    FollowsSplit(bytes, 7 + |s|, p, e);
  }

  /** Every printed record of legal parts is accepted, with the length size it says. */
  lemma PrintedAvcIsAccepted(r: AvcRecord)
    requires LegalAvc(r) && |r.sps| + |r.pps| + |ExtensionUnits(r)| <= NAL_LIMIT
    ensures RecordLength(PrintAvc(r), H264) == Some(r.length)
  {
    hide NalType, Take, PrintUnits, Follows, UnitsOf, PrintAvc, PrintExtension, TakeExtension;
    var bytes := PrintAvc(r);
    WholeFollows(bytes);
    AvcParts(bytes, r);
    HeadReads(bytes, r);
    var c0 := Cursor(6, 0, {});
    TakePrinted(bytes, c0, r.sps, 7, H264);
    var c1 := After(c0, r.sps, 7, H264);
    NextByte(bytes, c1.offset, |r.pps|);
    var c2 := c1.(offset := c1.offset + 1);
    TakePrinted(bytes, c2, r.pps, 8, H264);
    var c3 := After(c2, r.pps, 8, H264);
    assert c3.seen == {1, 2};
    ExtensionAccepted(bytes, c3, r);
  }

  lemma HeadReads(bytes: seq<byte>, r: AvcRecord)
    requires LegalAvc(r) && Follows(bytes, 0, AvcHead(r))
    ensures |bytes| >= 6 && bytes[0] == 1 && bytes[1] == r.profile
    ensures bytes[4] == 251 + r.length && bytes[5] == 224 + |r.sps|
  {
    hide UnitsOf;
    assert forall i :: 0 <= i < 6 ==> bytes[0..6][i] == bytes[i];
  }

  lemma WholeFollows(bytes: seq<byte>)
    ensures Follows(bytes, 0, bytes)
  {
  }

  lemma NextByte(bytes: seq<byte>, offset: nat, b: byte)
    requires Follows(bytes, offset, [b])
    ensures offset < |bytes| && bytes[offset] == b
  {
    assert bytes[offset..offset + 1][0] == bytes[offset];
  }

  lemma ExtensionAccepted(bytes: seq<byte>, c: Cursor, r: AvcRecord)
    requires LegalAvc(r) && 6 <= c.offset && c.count + |ExtensionUnits(r)| <= NAL_LIMIT
    requires Follows(bytes, c.offset, PrintExtension(r.extension))
    requires c.offset + |PrintExtension(r.extension)| == |bytes| && |bytes| > 1 && bytes[1] == r.profile
    ensures TakeExtension(bytes, c).Some?
    ensures TakeExtension(bytes, c).value.offset == |bytes| && TakeExtension(bytes, c).value.seen == c.seen
  {
    hide NalType, Take, PrintUnits, UnitsOf, Follows;
    if r.extension.Some? {
      var e := r.extension.value;
      var o, four := c.offset, [e.chroma, e.luma, e.depth, |e.units|];
      FollowsSplit(bytes, o, four, PrintUnits(e.units));
      FourBytes(bytes, o, four);
      TakePrinted(bytes, c.(offset := o + 4), e.units, 13, H264);
      assert BitsOf(e.units, 13, H264) == {};
      assert TakeExtension(bytes, c) == Take(bytes, c.(offset := o + 4), |e.units|, 13, H264);
    }
  }

  lemma FourBytes(bytes: seq<byte>, o: nat, four: seq<byte>)
    requires |four| == 4 && Follows(bytes, o, four)
    ensures o + 4 <= |bytes|
    ensures bytes[o] == four[0] && bytes[o + 1] == four[1] && bytes[o + 2] == four[2] && bytes[o + 3] == four[3]
  {
    var part := bytes[o..o + 4];
    assert part[0] == bytes[o] && part[1] == bytes[o + 1] && part[2] == bytes[o + 2] && part[3] == bytes[o + 3];
  }

  /** Every accepted record is the printed form of legal parts. */
  lemma AcceptedAvcIsPrinted(bytes: seq<byte>) returns (r: AvcRecord)
    requires RecordLength(bytes, H264).Some?
    ensures LegalAvc(r) && |r.sps| + |r.pps| + |ExtensionUnits(r)| <= NAL_LIMIT
    ensures bytes == PrintAvc(r) && RecordLength(bytes, H264) == Some(r.length)
  {
    hide NalType, Take, PrintUnits, Follows, UnitsOf, TakeExtension, PrintAvc, PrintExtension;
    var c0 := Cursor(6, 0, {});
    var sps := TakenIsPrinted(bytes, c0, bytes[5] % 32, 7, H264);
    var c1 := After(c0, sps, 7, H264);
    var c2 := c1.(offset := c1.offset + 1);
    var pps := TakenIsPrinted(bytes, c2, bytes[c1.offset], 8, H264);
    var c3 := After(c2, pps, 8, H264);
    var extension := ExtensionPrinted(bytes, c3);
    r := AvcRecord(bytes[1], bytes[2], bytes[3], bytes[4] % 4 + 1, sps, pps, extension);
    assert sps != [] && pps != [] by {
      assert {1, 2} == RequiredBits(H264) == BitsOf(sps, 7, H264) + BitsOf(pps, 8, H264);
      assert 1 in BitsOf(sps, 7, H264) + BitsOf(pps, 8, H264) && 2 in BitsOf(sps, 7, H264) + BitsOf(pps, 8, H264);
    }
    assert bytes[..6] == AvcHead(r);
    HeadFollows(bytes, AvcHead(r));
    OneFollows(bytes, c1.offset);
    AvcParts(bytes, r);
    FollowsWhole(bytes, PrintAvc(r));
  }

  lemma HeadFollows(bytes: seq<byte>, head: seq<byte>)
    requires |head| <= |bytes| && bytes[..|head|] == head
    ensures Follows(bytes, 0, head)
  {
  }

  lemma OneFollows(bytes: seq<byte>, offset: nat)
    requires offset < |bytes|
    ensures Follows(bytes, offset, [bytes[offset]])
  {
  }

  lemma FollowsWhole(bytes: seq<byte>, part: seq<byte>)
    requires Follows(bytes, 0, part) && |part| == |bytes|
    ensures bytes == part
  {
  }

  lemma ExtensionPrinted(bytes: seq<byte>, c: Cursor) returns (e: Option<Extension>)
    requires 6 <= c.offset <= |bytes| && c.count <= NAL_LIMIT
    requires TakeExtension(bytes, c).Some? && TakeExtension(bytes, c).value.offset == |bytes|
    ensures Follows(bytes, c.offset, PrintExtension(e)) && c.offset + |PrintExtension(e)| == |bytes|
    ensures e.Some? ==>
              && bytes[1] in {100, 110, 122, 144}
              && e.value.chroma >= 252 && e.value.luma >= 248 && e.value.depth >= 248
              && |e.value.units| <= 255 && UnitsOf(e.value.units, 13, H264)
              && c.count + |e.value.units| <= NAL_LIMIT
    ensures TakeExtension(bytes, c).value.seen == c.seen
  {
    hide NalType, Take, PrintUnits, UnitsOf, Follows;
    var o := c.offset;
    if o == |bytes| {
      e := None;
      FollowsNothing(bytes, o);
    } else {
      var units := TakenIsPrinted(bytes, c.(offset := o + 4), bytes[o + 3], 13, H264);
      e := Some(Extension(bytes[o], bytes[o + 1], bytes[o + 2], units));
      var four := [bytes[o], bytes[o + 1], bytes[o + 2], bytes[o + 3]];
      FourFollow(bytes, o);
      FollowsSplit(bytes, o, four, PrintUnits(units));
    }
  }

  lemma FourFollow(bytes: seq<byte>, o: nat)
    requires o + 4 <= |bytes|
    ensures Follows(bytes, o, [bytes[o], bytes[o + 1], bytes[o + 2], bytes[o + 3]])
  {
  }

  // ---- H.265 ----

  /** An array of units of the type in the low six bits of its tag. */
  datatype HevcArray = HevcArray(tag: byte, units: seq<seq<byte>>)

  predicate LegalArray(a: HevcArray) {
    a.tag / 64 % 2 == 0 && |a.units| <= 0xffff && UnitsOf(a.units, a.tag % 64, H265)
  }

  predicate LegalArrays(arrays: seq<HevcArray>) {
    forall i :: 0 <= i < |arrays| ==> LegalArray(arrays[i])
  }

  function PrintArray(a: HevcArray): seq<byte> {
    [a.tag] + Word(|a.units|) + PrintUnits(a.units)
  }

  function PrintArrays(arrays: seq<HevcArray>): seq<byte> {
    if arrays == [] then [] else PrintArray(arrays[0]) + PrintArrays(arrays[1..])
  }

  function AfterArray(c: Cursor, a: HevcArray): Cursor {
    After(c.(offset := c.offset + 3), a.units, a.tag % 64, H265)
  }

  function AfterArrays(c: Cursor, arrays: seq<HevcArray>): Cursor
    decreases |arrays|
  {
    if arrays == [] then c else AfterArrays(AfterArray(c, arrays[0]), arrays[1..])
  }

  function Total(arrays: seq<HevcArray>): nat {
    if arrays == [] then 0 else |arrays[0].units| + Total(arrays[1..])
  }

  /** The parameter-set bits of all arrays together. */
  function AllBits(arrays: seq<HevcArray>): set<nat> {
    if arrays == [] then {} else BitsOf(arrays[0].units, arrays[0].tag % 64, H265) + AllBits(arrays[1..])
  }

  lemma {:induction false} AfterArraysIs(c: Cursor, arrays: seq<HevcArray>)
    ensures AfterArrays(c, arrays)
         == Cursor(c.offset + |PrintArrays(arrays)|, c.count + Total(arrays), c.seen + AllBits(arrays))
    decreases |arrays|
  {
    hide BitsOf, Word, PrintUnits;
    if arrays != [] {
      AfterArraysIs(AfterArray(c, arrays[0]), arrays[1..]);
    }
  }

  lemma ArrayHead(bytes: seq<byte>, o: nat, a: HevcArray)
    requires Follows(bytes, o, PrintArray(a)) && |a.units| <= 0xffff
    ensures o + 3 <= |bytes| && bytes[o] == a.tag && U16(bytes[o + 1], bytes[o + 2]) == |a.units|
    ensures Follows(bytes, o + 3, PrintUnits(a.units))
  {
    hide Word, PrintUnits, U16;
    var three := [a.tag] + Word(|a.units|);
    FollowsSplit(bytes, o, three, PrintUnits(a.units));
    var part := bytes[o..o + 3];
    assert part[0] == bytes[o] && part[1] == bytes[o + 1] && part[2] == bytes[o + 2];
  }

  lemma {:induction false} ArraysPrinted(bytes: seq<byte>, c: Cursor, arrays: seq<HevcArray>)
    requires c.offset <= |bytes| && c.count + Total(arrays) <= NAL_LIMIT
    requires LegalArrays(arrays) && Follows(bytes, c.offset, PrintArrays(arrays))
    ensures HevcArrays(bytes, c, |arrays|) == Some(AfterArrays(c, arrays))
    decreases |arrays|
  {
    hide UnitsOf, PrintUnits, PrintArray, Take, Follows, U16;
    if arrays != [] {
      var a := arrays[0];
      assert LegalArray(a);
      FollowsSplit(bytes, c.offset, PrintArray(a), PrintArrays(arrays[1..]));
      ArrayHead(bytes, c.offset, a);
      TakePrinted(bytes, c.(offset := c.offset + 3), a.units, a.tag % 64, H265);
      ArraySize(a);
      ArraysPrinted(bytes, AfterArray(c, a), arrays[1..]);
    }
  }

  lemma ArraySize(a: HevcArray)
    ensures |PrintArray(a)| == 3 + |PrintUnits(a.units)|
  {
  }

  lemma {:induction false} ArraysTaken(bytes: seq<byte>, c: Cursor, n: nat) returns (arrays: seq<HevcArray>)
    requires c.offset <= |bytes| && c.count <= NAL_LIMIT && HevcArrays(bytes, c, n).Some?
    ensures |arrays| == n && LegalArrays(arrays) && c.count + Total(arrays) <= NAL_LIMIT
    ensures Follows(bytes, c.offset, PrintArrays(arrays))
    ensures HevcArrays(bytes, c, n) == Some(AfterArrays(c, arrays))
    decreases n
  {
    hide UnitsOf, PrintUnits, Take, Follows, U16, Word;
    if n == 0 {
      arrays := [];
      FollowsNothing(bytes, c.offset);
    } else {
      var o := c.offset;
      var count := U16(bytes[o + 1], bytes[o + 2]);
      var units := TakenIsPrinted(bytes, c.(offset := o + 3), count, bytes[o] % 64, H265);
      var a := HevcArray(bytes[o], units);
      ArrayFollows(bytes, o, a);
      var rest := ArraysTaken(bytes, AfterArray(c, a), n - 1);
      arrays := [a] + rest;
      assert arrays[1..] == rest;
      FollowsSplit(bytes, o, PrintArray(a), PrintArrays(rest));
    }
  }

  lemma ArrayFollows(bytes: seq<byte>, o: nat, a: HevcArray)
    requires o + 3 <= |bytes| && bytes[o] == a.tag && U16(bytes[o + 1], bytes[o + 2]) == |a.units|
    requires Follows(bytes, o + 3, PrintUnits(a.units))
    ensures Follows(bytes, o, PrintArray(a)) && |PrintArray(a)| == 3 + |PrintUnits(a.units)|
    ensures |a.units| <= 0xffff
  {
    hide PrintUnits, Word;
    WordOnto(bytes[o + 1], bytes[o + 2]);
    var three := [a.tag] + Word(|a.units|);
    assert bytes[o..o + 3] == three;
    FollowsSplit(bytes, o, three, PrintUnits(a.units));
  }

  /** The 22 bytes before the number of arrays: version 1, and the NAL length size in the last. */
  predicate LegalHevcHead(head: seq<byte>) {
    |head| == 22 && head[0] == 1 && head[21] % 4 != 2
  }

  predicate LegalHevc(head: seq<byte>, arrays: seq<HevcArray>) {
    && LegalHevcHead(head)
    && |arrays| <= 255 && LegalArrays(arrays)
    && Total(arrays) <= NAL_LIMIT
    && AllBits(arrays) == {1, 2, 4}
  }

  function PrintHevc(head: seq<byte>, arrays: seq<HevcArray>): seq<byte>
    requires |arrays| <= 255
  {
    head + [|arrays|] + PrintArrays(arrays)
  }

  lemma PrintedHevcIsAccepted(head: seq<byte>, arrays: seq<HevcArray>)
    requires LegalHevc(head, arrays)
    ensures RecordLength(PrintHevc(head, arrays), H265) == Some(head[21] % 4 + 1)
  {
    hide LegalArrays, PrintArrays, HevcArrays;
    var bytes := PrintHevc(head, arrays);
    var front := head + [|arrays|];
    Joined(front, PrintArrays(arrays));
    assert bytes[23..23 + |PrintArrays(arrays)|] == PrintArrays(arrays);
    var c := Cursor(23, 0, {});
    ArraysPrinted(bytes, c, arrays);
    AfterArraysIs(c, arrays);
  }

  lemma AcceptedHevcIsPrinted(bytes: seq<byte>) returns (head: seq<byte>, arrays: seq<HevcArray>)
    requires RecordLength(bytes, H265).Some?
    ensures LegalHevc(head, arrays) && bytes == PrintHevc(head, arrays)
    ensures RecordLength(bytes, H265) == Some(head[21] % 4 + 1)
  {
    hide LegalArrays, PrintArrays, HevcArrays;
    var c := Cursor(23, 0, {});
    head := bytes[..22];
    arrays := ArraysTaken(bytes, c, bytes[22]);
    AfterArraysIs(c, arrays);
    assert bytes == head + [bytes[22]] + bytes[23..];
    assert bytes[23..] == bytes[23..23 + |PrintArrays(arrays)|];
  }
}
