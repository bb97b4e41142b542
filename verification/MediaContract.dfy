/** The C++ consumer of ARPM/1: the Validator that decides which record streams are legal. */
module MediaContract {
  import opened Bytes
  import opened Nals
  import opened CodecConfig
  import opened MediaWire

  datatype Verdict = Verdict(
    nextSequence: u32, length: nat, lastTimestamp: u64,
    described: bool, configured: bool, seenFrame: bool, exhausted: bool, failed: bool)

  const FRESH := Verdict(0, 0, 0, false, false, false, false, false)

  /** The state after a legal record, or None: a rejected record poisons the validator for good. */
  function Accept(expected: Description, v: Verdict, h: Header, payload: seq<byte>): Option<Verdict> {
    if v.failed || v.exhausted || h.sequence != v.nextSequence || |payload| != h.size then None
    else
      var next := v.(exhausted := v.nextSequence == U32_MAX, nextSequence := (v.nextSequence + 1) % 0x1_0000_0000);
      if !v.described then
        if h.kind.DescriptionRecord? && ParseDescription(payload) == Some(expected) then Some(next.(described := true))
        else None
      else match h.kind
        case DescriptionRecord => None
        case ConfigRecord =>
          if v.configured || v.seenFrame then None
          else if expected.framing.AnnexB? then
            if WellFormed(payload, expected.codec, AnnexB, 0, true) then Some(next.(configured := true)) else None
          else
            var length := RecordLength(payload, expected.codec);
            if length.Some? then Some(next.(configured := true, length := length.value)) else None
        case AccessUnitRecord =>
          if !v.configured
             || ((!v.seenFrame || h.flags / 2 % 2 == 1) && h.flags % 2 == 0)
             || (v.seenFrame && h.timestamp < v.lastTimestamp)
             || !WellFormed(payload, expected.codec, expected.framing, v.length, false) then None
          else Some(next.(seenFrame := true, lastTimestamp := h.timestamp))
  }

  class Validator {
    const expected: Description
    var nextSequence: u32
    var length: nat
    var lastTimestamp: u64
    var described: bool
    var configured: bool
    var seenFrame: bool
    var exhausted: bool
    var failed: bool

    constructor (expected: Description)
      ensures this.expected == expected && View() == FRESH
    {
      this.expected := expected;
      nextSequence, length, lastTimestamp := 0, 0, 0;
      described, configured, seenFrame, exhausted, failed := false, false, false, false, false;
    }

    ghost function View(): Verdict
      reads this
    {
      Verdict(nextSequence, length, lastTimestamp, described, configured, seenFrame, exhausted, failed)
    }

    method Check(h: Header, payload: seq<byte>) returns (ok: bool)
      modifies this
      ensures ok <==> Accept(expected, old(View()), h, payload).Some?
      ensures ok ==> View() == Accept(expected, old(View()), h, payload).value
      ensures !ok ==> failed
    {
      hide WellFormed, RecordLength, ParseDescription;
      if failed || exhausted || h.sequence != nextSequence || |payload| != h.size {
        failed := true;
        return false;
      }
      if !described {
        if !h.kind.DescriptionRecord? || ParseDescription(payload) != Some(expected) {
          failed := true;
          return false;
        }
        described := true;
      } else if h.kind.ConfigRecord? {
        var good := !configured && !seenFrame;
        if good {
          if expected.framing.AnnexB? {
            good := ConsumerInspectNals(payload, expected.codec, expected.framing, 0, true);
          } else {
            var parsed: nat;
            good, parsed := ParseCodecConfig(payload, expected.codec);
            if good {
              length := parsed;
            }
          }
        }
        if !good {
          failed := true;
          return false;
        }
        configured := true;
      } else if h.kind.AccessUnitRecord? {
        var good := configured && ((seenFrame && h.flags / 2 % 2 == 0) || h.flags % 2 == 1)
                    && !(seenFrame && h.timestamp < lastTimestamp);
        if good {
          good := ConsumerInspectNals(payload, expected.codec, expected.framing, length, false);
        }
        if !good {
          failed := true;
          return false;
        }
        seenFrame, lastTimestamp := true, h.timestamp;
      } else {
        failed := true;
        return false;
      }
      exhausted := nextSequence == U32_MAX;
      nextSequence := (nextSequence + 1) % 0x1_0000_0000;
      return true;
    }
  }

  /** A complete record as the socket carries it. */
  datatype Record = Record(header: Header, payload: seq<byte>)

  /** Parse and accept whole records in order; None as soon as one is refused. */
  function Validate(expected: Description, v: Verdict, records: seq<Record>): Option<Verdict> {
    if records == [] then Some(v)
    else
      var last := records[|records| - 1];
      match Validate(expected, v, records[..|records| - 1])
      case None => None
      case Some(before) =>
        match ParseHeader(HeaderBytes(last.header))
        case None => None
        case Some(h) => Accept(expected, before, h, last.payload)
  }

  lemma ValidateSnoc(expected: Description, v: Verdict, records: seq<Record>, r: Record)
    ensures Validate(expected, v, records + [r]) ==
            match Validate(expected, v, records)
            case None => None
            case Some(before) => if LegalHeader(r.header) then Accept(expected, before, r.header, r.payload) else None
  {
    assert (records + [r])[..|records|] == records;
    HeaderRoundTrip(r.header);
  }
}
