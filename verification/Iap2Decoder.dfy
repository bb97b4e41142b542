/**
 The buffered iAP2 decoder: reads are pushed into a buffer that holds one frame of the largest size, and whole frames
 are taken off its front between the reads. A read is refused when the buffer would pass its limit, even if every frame
 in it is legal; the condition under which no read is refused is exact.
 */
module Iap2Decoder {
  import opened Bytes
  import opened Chunking
  import opened Iap2Frame

  datatype Front = Wait | First(frame: Frame, rest: seq<byte>) | Fault(error: Error)

  /** What stands at the front of the buffer. */
  function FrontOf(buffer: seq<byte>): (r: Front)
    ensures r.First? ==> |r.rest| < |buffer|
  {
    if |buffer| < 4 then Wait
    else if buffer[..2] != [0xff, 0x5a] then Fault(Malformed)
    else
      var length := U16(buffer[2], buffer[3]);
      if length < HEADER || length == HEADER + 1 then Fault(Malformed)
      else if |buffer| < length then Wait
      else match Decode(buffer[..length])
        case Err(error) => Fault(error)
        case Ok(f) => First(f, buffer[length..])
  }

  class Decoder {
    var bytes: seq<byte>

    constructor ()
      ensures bytes == []
    {
      bytes := [];
    }

    /** `push`. */
    method Push(more: seq<byte>) returns (r: Result<()>)
      modifies this
      ensures r == if |old(bytes)| + |more| > MAX_FRAME then Err(Bounds) else Ok(())
      ensures bytes == if r.Ok? then old(bytes) + more else old(bytes)
    {
      if |bytes| + |more| > MAX_FRAME {
        return Err(Bounds);
      }
      bytes := bytes + more;
      return Ok(());
    }

    /** `next_frame`. */
    method NextFrame() returns (r: Result<Option<Frame>>)
      modifies this
      ensures match FrontOf(old(bytes))
              case Wait => r == Ok(None) && bytes == old(bytes)
              case Fault(error) => r == Err(error) && bytes == old(bytes)
              case First(f, rest) => r == Ok(Some(f)) && bytes == rest
    {
      hide Decode, U16;
      if |bytes| < 4 {
        return Ok(None);
      }
      if bytes[..2] != [0xff, 0x5a] {
        return Err(Malformed);
      }
      var length := U16(bytes[2], bytes[3]);
      if length < HEADER || length == HEADER + 1 {
        return Err(Malformed);
      }
      if |bytes| < length {
        return Ok(None);
      }
      var frame := Decode(bytes[..length]);
      if frame.Err? {
        return Err(frame.error);
      }
      bytes := bytes[length..];
      return Ok(Some(frame.value));
    }
  }

  // ---- Many reads ----

  /** Frames handed out, what is left in the buffer, and the error that discards the decoder and its buffer. */
  datatype Outcome = Outcome(frames: seq<Frame>, rest: seq<byte>, fault: Option<Error>)

  function Ahead(frames: seq<Frame>, o: Outcome): Outcome {
    Outcome(frames + o.frames, o.rest, o.fault)
  }

  /** Every frame at the front of the buffer. */
  function Parse(buffer: seq<byte>): Outcome
    decreases |buffer|
  {
    match FrontOf(buffer)
    case Wait => Outcome([], buffer, None)
    case Fault(error) => Outcome([], [], Some(error))
    case First(f, rest) => Ahead([f], Parse(rest))
  }

  /** The decoder on a list of reads, emptied of frames after each. */
  function Feed(buffer: seq<byte>, pieces: seq<seq<byte>>): Outcome
    decreases |pieces|
  {
    if pieces == [] then Outcome([], buffer, None)
    else if |buffer| + |pieces[0]| > MAX_FRAME then Outcome([], [], Some(Bounds))
    else
      var o := Parse(buffer + pieces[0]);
      if o.fault.Some? then o else Ahead(o.frames, Feed(o.rest, pieces[1..]))
  }

  /** What is decided of a buffer stays decided when more bytes follow. */
  lemma FrontIsFinal(buffer: seq<byte>, more: seq<byte>)
    ensures FrontOf(buffer).Fault? ==> FrontOf(buffer + more) == FrontOf(buffer)
    ensures FrontOf(buffer).First? ==>
              FrontOf(buffer + more) == First(FrontOf(buffer).frame, FrontOf(buffer).rest + more)
  {
    hide Decode, U16;
    if |buffer| >= 4 {
      assert (buffer + more)[..2] == buffer[..2];
      var length := U16(buffer[2], buffer[3]);
      if length <= |buffer| {
        assert (buffer + more)[..length] == buffer[..length];
        assert (buffer + more)[length..] == buffer[length..] + more;
      }
    }
  }

  /** Parsing in two steps, the second on what the first has left. */
  lemma {:induction false} ParseAppend(buffer: seq<byte>, more: seq<byte>)
    ensures var o := Parse(buffer);
            Parse(buffer + more) == if o.fault.Some? then o else Ahead(o.frames, Parse(o.rest + more))
    decreases |buffer|
  {
    hide FrontOf;
    FrontIsFinal(buffer, more);
    match FrontOf(buffer)
    case Wait => AheadNothing(Parse(buffer + more));
    case Fault(_) =>
    case First(f, rest) =>
      ParseAppend(rest, more);
      var o := Parse(rest);
      if o.fault.None? {
        AheadTwice([f], o.frames, Parse(o.rest + more));
      }
  }

  lemma AheadNothing(o: Outcome)
    ensures Ahead([], o) == o
  {
  }

  lemma AheadTwice(a: seq<Frame>, b: seq<Frame>, o: Outcome)
    ensures Ahead(a, Ahead(b, o)) == Ahead(a + b, o)
  {
  }

  /** The only faults of parsing are in the bytes; Bounds always comes from the buffer's limit. */
  lemma {:induction false} ParseNeverOverflows(buffer: seq<byte>)
    ensures Parse(buffer).fault != Some(Bounds)
    decreases |buffer|
  {
    hide FrontOf;
    FrontNeverOverflows(buffer);
    if FrontOf(buffer).First? {
      ParseNeverOverflows(FrontOf(buffer).rest);
    }
  }

  lemma FrontNeverOverflows(buffer: seq<byte>)
    ensures FrontOf(buffer) != Fault(Bounds)
  {
    hide Complement;
  }

  /** No read, up to the first fault in the bytes themselves, takes the buffer over its limit. */
  predicate Roomy(buffer: seq<byte>, pieces: seq<seq<byte>>) {
    forall k :: 0 <= k < |pieces| ==> RoomAt(buffer, pieces, k)
  }

  predicate RoomAt(buffer: seq<byte>, pieces: seq<seq<byte>>, k: nat)
    requires k < |pieces|
  {
    var o := Parse(buffer + Concat(pieces[..k]));
    o.fault.None? ==> |o.rest| + |pieces[k]| <= MAX_FRAME
  }

  lemma {:induction false} ParseWaits(buffer: seq<byte>)
    ensures Parse(buffer).fault.None? ==> FrontOf(Parse(buffer).rest).Wait?
    decreases |buffer|
  {
    hide FrontOf;
    if FrontOf(buffer).First? {
      ParseWaits(FrontOf(buffer).rest);
    }
  }

  /** The room for read k + 1 of a list is the room for read k of its tail, after the first read is parsed. */
  lemma RoomAfter(buffer: seq<byte>, pieces: seq<seq<byte>>, k: nat)
    requires k + 1 < |pieces| && Parse(buffer + pieces[0]).fault.None?
    ensures RoomAt(buffer, pieces, k + 1) <==> RoomAt(Parse(buffer + pieces[0]).rest, pieces[1..], k)
  {
    hide Parse;
    var o := Parse(buffer + pieces[0]);
    var later := Concat(pieces[1..][..k]);
    assert pieces[..k + 1][1..] == pieces[1..][..k];
    assert buffer + Concat(pieces[..k + 1]) == buffer + pieces[0] + later;
    ParseAppend(buffer + pieces[0], later);
  }

  lemma RoomFirst(buffer: seq<byte>, pieces: seq<seq<byte>>)
    requires pieces != [] && FrontOf(buffer).Wait?
    ensures RoomAt(buffer, pieces, 0) <==> |buffer| + |pieces[0]| <= MAX_FRAME
  {
    assert buffer + Concat(pieces[..0]) == buffer;
  }

  /** Once the bytes are at fault no later read is looked at. */
  lemma RoomAfterFault(buffer: seq<byte>, pieces: seq<seq<byte>>, k: nat)
    requires 0 < k < |pieces| && Parse(buffer + pieces[0]).fault.Some?
    ensures RoomAt(buffer, pieces, k)
  {
    hide Parse;
    var later := Concat(pieces[..k][1..]);
    assert buffer + Concat(pieces[..k]) == buffer + pieces[0] + later;
    ParseAppend(buffer + pieces[0], later);
  }

  lemma RoomyTail(buffer: seq<byte>, pieces: seq<seq<byte>>)
    requires pieces != [] && FrontOf(buffer).Wait?
    ensures var o := Parse(buffer + pieces[0]);
            Roomy(buffer, pieces) <==>
              |buffer| + |pieces[0]| <= MAX_FRAME && (o.fault.None? ==> Roomy(o.rest, pieces[1..]))
  {
    hide Parse, FrontOf, RoomAt;
    var o := Parse(buffer + pieces[0]);
    RoomFirst(buffer, pieces);
    if o.fault.Some? {
      forall k | 0 < k < |pieces|
        ensures RoomAt(buffer, pieces, k)
      {
        RoomAfterFault(buffer, pieces, k);
      }
    } else {
      forall k: nat | k < |pieces| - 1
        ensures RoomAt(buffer, pieces, k + 1) <==> RoomAt(o.rest, pieces[1..], k)
      {
        RoomAfter(buffer, pieces, k);
      }
      if Roomy(buffer, pieces) {
        forall k | 0 <= k < |pieces| - 1
          ensures RoomAt(o.rest, pieces[1..], k)
        {
          assert RoomAt(buffer, pieces, k + 1);
        }
      }
      if Roomy(o.rest, pieces[1..]) && RoomAt(buffer, pieces, 0) {
        forall k | 0 <= k < |pieces|
          ensures RoomAt(buffer, pieces, k)
        {
          if k > 0 {
            assert RoomAt(o.rest, pieces[1..], k - 1);
          }
        }
      }
    }
  }

  lemma {:induction false} FeedExact(buffer: seq<byte>, pieces: seq<seq<byte>>)
    requires FrontOf(buffer).Wait?
    ensures Roomy(buffer, pieces) ==> Feed(buffer, pieces) == Parse(buffer + Concat(pieces))
    ensures !Roomy(buffer, pieces) ==>
              && Feed(buffer, pieces).fault == Some(Bounds)
              && Feed(buffer, pieces).frames <= Parse(buffer + Concat(pieces)).frames
    decreases |pieces|
  {
    hide Parse, FrontOf, Roomy;
    if pieces == [] {
      assert buffer + Concat(pieces) == buffer;
      WaitingIsParsed(buffer);
      NoReadsFit(buffer);
    } else {
      var o := Parse(buffer + pieces[0]);
      RoomyTail(buffer, pieces);
      ParseAppend(buffer + pieces[0], Concat(pieces[1..]));
      assert buffer + Concat(pieces) == buffer + pieces[0] + Concat(pieces[1..]);
      if o.fault.None? {
        ParseWaits(buffer + pieces[0]);
        FeedExact(o.rest, pieces[1..]);
      }
    }
  }

  lemma WaitingIsParsed(buffer: seq<byte>)
    requires FrontOf(buffer).Wait?
    ensures Parse(buffer) == Outcome([], buffer, None)
  {
  }

  lemma NoReadsFit(buffer: seq<byte>)
    ensures Roomy(buffer, [])
  {
  }

  /**
   For every byte stream and every way of cutting it into reads, the decoder hands out what parsing the whole stream at
   once would, frames, remainder and fault alike, if and only if no read takes the buffer over its limit; otherwise it
   stops with Bounds and has handed out the first of those frames.
   */
  lemma ReadsAreInvisibleIff(pieces: seq<seq<byte>>)
    ensures Roomy([], pieces) <==> Feed([], pieces) == Parse(Concat(pieces))
    ensures !Roomy([], pieces) ==>
              Feed([], pieces).fault == Some(Bounds) && Feed([], pieces).frames <= Parse(Concat(pieces)).frames
  {
    hide Parse, Feed, Roomy;
    FeedExact([], pieces);
    assert [] + Concat(pieces) == Concat(pieces);
    ParseNeverOverflows(Concat(pieces));
  }

  // ---- Streams of legal frames ----

  predicate AllEncodable(frames: seq<Frame>) {
    forall i :: 0 <= i < |frames| ==> Encode(frames[i]).Ok?
  }

  function Stream(frames: seq<Frame>): (r: seq<byte>)
    requires AllEncodable(frames)
  {
    if frames == [] then [] else Encode(frames[0]).value + Stream(frames[1..])
  }

  /** Of the first n bytes of the frames' stream, those behind the last frame that is whole. */
  function Held(frames: seq<Frame>, n: nat): nat {
    if frames == [] || n < Length(frames[0]) then n else Held(frames[1..], n - Length(frames[0]))
  }

  /** A proper prefix of an encoded frame is waited on; the whole of it is the frame. */
  lemma FrontOfFrame(f: Frame, n: nat, rest: seq<byte>)
    requires Encode(f).Ok?
    ensures FrontOf(Encode(f).value + rest) == First(f, rest)
    ensures n < Length(f) ==> FrontOf(Encode(f).value[..n]).Wait?
  {
    hide Encode, Decode, HeaderFields, Complement, U16;
    FrameRoundTrip(f);
    EncodedParts(f);
    HeaderSays(f);
    var bytes := Encode(f).value;
    var all := bytes + rest;
    assert forall i :: 0 <= i < 8 ==> bytes[i] == bytes[..8][i];
    assert all[..2] == [0xff, 0x5a] && all[..|bytes|] == bytes && all[|bytes|..] == rest;
    if 4 <= n < Length(f) {
      assert bytes[..n][..2] == [0xff, 0x5a];
    }
  }

  lemma {:induction false} ParseStream(frames: seq<Frame>, n: nat)
    requires AllEncodable(frames) && n <= |Stream(frames)|
    ensures var o := Parse(Stream(frames)[..n]);
            && o.fault == None && |o.rest| == Held(frames, n)
            && (n == |Stream(frames)| ==> o.frames == frames && o.rest == [])
  {
    hide Encode, FrontOf;
    if frames == [] {
      FrontOfNothing();
    } else {
      var f, tail := frames[0], Stream(frames[1..]);
      var bytes := Encode(f).value;
      if n < |bytes| {
        FrontOfFrame(f, n, []);
        assert Stream(frames)[..n] == bytes[..n];
      } else {
        var m := n - |bytes|;
        FrontOfFrame(f, 0, tail[..m]);
        ParseStream(frames[1..], m);
        assert Stream(frames)[..n] == bytes + tail[..m];
      }
    }
  }

  lemma FrontOfNothing()
    ensures FrontOf([]).Wait?
  {
  }

  lemma ConcatPrefix(pieces: seq<seq<byte>>, k: nat)
    requires k <= |pieces|
    ensures Concat(pieces) == Concat(pieces[..k]) + Concat(pieces[k..])
  {
    ConcatAppend(pieces[..k], pieces[k..]);
    assert pieces[..k] + pieces[k..] == pieces;
  }

  /** The bytes of the unfinished frame before read k, and read k, fit the buffer together. */
  predicate ReadFits(frames: seq<Frame>, pieces: seq<seq<byte>>, k: nat)
    requires k < |pieces|
  {
    Held(frames, |Concat(pieces[..k])|) + |pieces[k]| <= MAX_FRAME
  }

  lemma RoomIsFit(frames: seq<Frame>, pieces: seq<seq<byte>>, k: nat)
    requires AllEncodable(frames) && Concat(pieces) == Stream(frames) && k < |pieces|
    ensures RoomAt([], pieces, k) <==> ReadFits(frames, pieces, k)
  {
    hide AllEncodable, Stream, Parse, Concat, Held;
    var before := Concat(pieces[..k]);
    ConcatPrefix(pieces, k);
    assert before == Stream(frames)[..|before|] && [] + before == before;
    ParseStream(frames, |before|);
  }

  /**
   A stream of legal frames, cut into reads in any way, comes out as exactly those frames if and only if every read fits
   the buffer beside the unfinished frame before it. Otherwise the decoder fails with Bounds.
   */
  lemma FramesArriveIff(frames: seq<Frame>, pieces: seq<seq<byte>>)
    requires AllEncodable(frames) && Concat(pieces) == Stream(frames)
    ensures (forall k :: 0 <= k < |pieces| ==> ReadFits(frames, pieces, k)) <==>
              Feed([], pieces) == Outcome(frames, [], None)
    ensures (exists k :: 0 <= k < |pieces| && !ReadFits(frames, pieces, k)) ==>
              Feed([], pieces).fault == Some(Bounds) && Feed([], pieces).frames <= frames
  {
    hide AllEncodable, Stream, Parse, Concat, ReadFits, RoomAt, Feed;
    forall k | 0 <= k < |pieces|
      ensures RoomAt([], pieces, k) <==> ReadFits(frames, pieces, k)
    {
      RoomIsFit(frames, pieces, k);
    }
    ReadsAreInvisibleIff(pieces);
    ParseStream(frames, |Stream(frames)|);
    assert Stream(frames)[..|Stream(frames)|] == Stream(frames);
  }

  lemma {:induction false} HeldIsPartial(frames: seq<Frame>, n: nat, size: nat)
    requires AllEncodable(frames) && n <= |Stream(frames)| && size > 0
    requires forall i :: 0 <= i < |frames| ==> Length(frames[i]) <= size
    ensures Held(frames, n) < size
  {
    hide Encode;
    if frames != [] && n >= Length(frames[0]) {
      HeldIsPartial(frames[1..], n - Length(frames[0]), size);
    }
  }

  /** So reads that leave room for a frame less one byte are never refused. */
  lemma SmallReadsArrive(frames: seq<Frame>, pieces: seq<seq<byte>>, size: nat)
    requires AllEncodable(frames) && Concat(pieces) == Stream(frames) && size > 0
    requires forall i :: 0 <= i < |frames| ==> Length(frames[i]) <= size
    requires forall k :: 0 <= k < |pieces| ==> size - 1 + |pieces[k]| <= MAX_FRAME
    ensures Feed([], pieces) == Outcome(frames, [], None)
  {
    hide AllEncodable, Stream, Concat, Held, Length;
    FramesArriveIff(frames, pieces);
    forall k | 0 <= k < |pieces|
      ensures ReadFits(frames, pieces, k)
    {
      ConcatPrefix(pieces, k);
      HeldIsPartial(frames, |Concat(pieces[..k])|, size);
    }
  }

  /** But a read that ends a frame of the largest size and starts the next is refused. */
  lemma CoalescedReadIsRefused(f: Frame, g: Frame)
    requires Encode(f).Ok? && Encode(g).Ok? && Length(f) == MAX_FRAME
    ensures var a, b := Encode(f).value, Encode(g).value;
            Feed([], [a[..MAX_FRAME - 1], a[MAX_FRAME - 1..] + b]) == Outcome([], [], Some(Bounds))
  {
    hide Encode, FrontOf;
    FrontOfFrame(f, MAX_FRAME - 1, []);
    var a := Encode(f).value;
    var first := a[..MAX_FRAME - 1];
    assert [] + first == first;
    WaitingIsParsed(first);
    var pieces := [first, a[MAX_FRAME - 1..] + Encode(g).value];
    assert |Encode(g).value| == Length(g) >= HEADER;
    assert pieces[1..] == [pieces[1]];
    assert Feed(first, pieces[1..]) == Outcome([], [], Some(Bounds));
  }
}
