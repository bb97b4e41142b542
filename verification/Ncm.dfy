/**
 USB network blocks (NCM transfer blocks): the reader that collects the Ethernet frames of a block, and the writer that
 puts one frame in a block. The reader checks as it walks; the specification walks first and then states the conditions.
 */
module Ncm {
  import opened Bytes

  const HEADER: nat := 12
  const MAX_BLOCK: nat := 32768
  const MAX_TABLES: nat := 8
  const MAX_FRAMES: nat := 32
  const MIN_FRAME: nat := 14
  const MAX_FRAME: nat := 4096
  const PACKET: nat := 512

  const NCMH: seq<byte> := [0x4e, 0x43, 0x4d, 0x48]
  const NCM0: seq<byte> := [0x4e, 0x43, 0x4d, 0x30]

  /** Bytes from start up to, not including, end. */
  datatype Range = Range(start: nat, end: nat)

  predicate Overlap(a: Range, b: Range) {
    a.start < b.end && a.end > b.start
  }

  predicate Apart(ranges: seq<Range>) {
    forall i, j :: 0 <= i < j < |ranges| ==> !Overlap(ranges[j], ranges[i])
  }

  function WordAt(b: seq<byte>, i: nat): nat
    requires i + 2 <= |b|
  {
    U16Little(b[i], b[i + 1])
  }

  // ---- What a block holds ----

  /** A pointer table stands at offset, inside the block. */
  predicate TableAt(b: seq<byte>, offset: nat) {
    && offset >= HEADER && offset % 4 == 0
    && offset + 6 <= |b| && b[offset..offset + 4] == NCM0
    && var size := WordAt(b, offset + 4);
       size >= 12 && size % 4 == 0 && offset + size <= |b|
  }

  function TableRange(b: seq<byte>, offset: nat): Range
    requires TableAt(b, offset)
  {
    Range(offset, offset + WordAt(b, offset + 4))
  }

  /** The entries of a table from entry on, up to its terminator; None when it has none before end. */
  function EntriesAt(b: seq<byte>, entry: nat, end: nat): Option<seq<Range>>
    requires end <= |b| && entry <= end && (end - entry) % 4 == 0
    decreases end - entry
  {
    if entry == end then None
    else
      var start, size := WordAt(b, entry), WordAt(b, entry + 2);
      if start == 0 && size == 0 then Some([])
      else match EntriesAt(b, entry + 4, end)
        case None => None
        case Some(rest) => Some([Range(start, start + size)] + rest)
  }

  function Entries(b: seq<byte>, offset: nat): Option<seq<Range>>
    requires TableAt(b, offset)
  {
    EntriesAt(b, offset + 8, TableRange(b, offset).end)
  }

  datatype Found = Found(tables: seq<Range>, frames: seq<Range>)

  /** Everything on the chain of tables that starts at offset, when the chain is sound and not longer than room. */
  function Collect(b: seq<byte>, offset: nat, room: nat): Option<Found>
    decreases room
  {
    if offset == 0 then Some(Found([], []))
    else if room == 0 || !TableAt(b, offset) || Entries(b, offset).None? then None
    else match Collect(b, WordAt(b, offset + 6), room - 1)
      case None => None
      case Some(rest) => Some(Found([TableRange(b, offset)] + rest.tables, Entries(b, offset).value + rest.frames))
  }

  predicate LegalFrame(frame: Range, length: nat) {
    HEADER <= frame.start && frame.start + MIN_FRAME <= frame.end <= frame.start + MAX_FRAME && frame.end <= length
  }

  predicate LegalFrames(frames: seq<Range>, length: nat) {
    && |frames| <= MAX_FRAMES
    && (forall i :: 0 <= i < |frames| ==> LegalFrame(frames[i], length))
    && Apart(frames)
  }

  predicate Clear(frames: seq<Range>, tables: seq<Range>) {
    forall i, j :: 0 <= i < |frames| && 0 <= j < |tables| ==> !Overlap(frames[i], tables[j])
  }

  predicate Legal(f: Found, length: nat) {
    && Apart(f.tables)
    && LegalFrames(f.frames, length)
    && Clear(f.frames, f.tables)
  }

  predicate HeaderAt(block: seq<byte>) {
    && |block| >= HEADER && block[..4] == NCMH && WordAt(block, 4) == HEADER
    && HEADER <= WordAt(block, 8) <= MAX_BLOCK && WordAt(block, 8) <= |block|
  }

  /** The declared part of the block, and what its tables point to when all of it is legal. */
  function Layout(block: seq<byte>): Option<Found> {
    if !HeaderAt(block) then None
    else
      var b := block[..WordAt(block, 8)];
      match Collect(b, WordAt(b, 10), MAX_TABLES)
      case None => None
      case Some(f) => if Legal(f, |b|) then Some(f) else None
  }

  function Cut(block: seq<byte>, frames: seq<Range>): (r: seq<seq<byte>>)
    requires forall i :: 0 <= i < |frames| ==> frames[i].start <= frames[i].end <= |block|
    ensures |r| == |frames|
    ensures forall i :: 0 <= i < |frames| ==> r[i] == block[frames[i].start..frames[i].end]
  {
    if frames == [] then []
    else Cut(block, frames[..|frames| - 1]) + [block[frames[|frames| - 1].start..frames[|frames| - 1].end]]
  }

  /** The frames of a block. */
  function FramesOf(block: seq<byte>): Option<seq<seq<byte>>> {
    match Layout(block)
    case None => None
    case Some(f) => Some(Cut(block[..WordAt(block, 8)], f.frames))
  }

  // ---- The reader ----

  lemma ApartPrefix(a: seq<Range>, b: seq<Range>)
    requires Apart(a + b)
    ensures Apart(a)
  {
    forall i, j | 0 <= i < j < |a|
      ensures !Overlap(a[j], a[i])
    {
      assert (a + b)[i] == a[i] && (a + b)[j] == a[j];
    }
  }

  lemma LegalPrefix(a: seq<Range>, b: seq<Range>, length: nat)
    requires LegalFrames(a + b, length)
    ensures LegalFrames(a, length)
  {
    hide LegalFrame, Overlap;
    ApartPrefix(a, b);
    forall i | 0 <= i < |a|
      ensures LegalFrame(a[i], length)
    {
      assert (a + b)[i] == a[i];
    }
  }

  /** One more range is legal beside legal ones when it is legal itself, overlaps none and leaves room. */
  lemma LegalSnoc(a: seq<Range>, r: Range, length: nat)
    requires LegalFrames(a, length)
    ensures LegalFrames(a + [r], length) <==>
              |a| < MAX_FRAMES && LegalFrame(r, length) && forall i :: 0 <= i < |a| ==> !Overlap(r, a[i])
  {
    hide LegalFrame, Overlap;
    var all := a + [r];
    assert all[|a|] == r && forall i :: 0 <= i < |a| ==> all[i] == a[i];
  }

  lemma ApartSnoc(a: seq<Range>, r: Range)
    requires Apart(a)
    ensures Apart(a + [r]) <==> forall i :: 0 <= i < |a| ==> !Overlap(r, a[i])
  {
    hide Overlap;
    var all := a + [r];
    assert all[|a|] == r && forall i :: 0 <= i < |a| ==> all[i] == a[i];
  }

  /** The reader's result is the value specified, or an error where there is none. */
  ghost predicate Agrees<T>(r: Result<T>, specified: Option<T>) {
    match specified
    case None => r.Err?
    case Some(value) => r == Ok(value)
  }

  /** Whether the reader takes one more frame range after those found. */
  predicate Takes(found: seq<Range>, one: Range, length: nat) {
    && |found| < MAX_FRAMES
    && LegalFrame(one, length)
    && forall i :: 0 <= i < |found| ==> !Overlap(one, found[i])
  }

  /** The entries from entry on, each checked as it is met against those found before. */
  function ReadFrom(b: seq<byte>, entry: nat, end: nat, found: seq<Range>): Result<seq<Range>>
    requires end <= |b| && entry <= end && (end - entry) % 4 == 0
    decreases end - entry
  {
    if entry == end then Err(Malformed)
    else
      var start, size := WordAt(b, entry), WordAt(b, entry + 2);
      if start == 0 && size == 0 then Ok(found)
      else
        var one := Range(start, start + size);
        if Takes(found, one, |b|) then ReadFrom(b, entry + 4, end, found + [one])
        else Err(if |found| < MAX_FRAMES && LegalFrame(one, |b|) then Malformed else Bounds)
  }

  /** Checking on the way accepts the same tables as checking at the end. */
  lemma {:induction false} ReadFromExact(b: seq<byte>, entry: nat, end: nat, found: seq<Range>)
    requires end <= |b| && entry <= end && (end - entry) % 4 == 0
    requires LegalFrames(found, |b|)
    ensures Agrees(ReadFrom(b, entry, end, found),
                   match EntriesAt(b, entry, end)
                   case None => None
                   case Some(entries) => if LegalFrames(found + entries, |b|) then Some(found + entries) else None)
    decreases end - entry
  {
    hide WordAt, LegalFrame, LegalFrames, Overlap, Takes;
    if entry < end {
      var start, size := WordAt(b, entry), WordAt(b, entry + 2);
      if start == 0 && size == 0 {
        assert found + [] == found;
      } else {
        var one := Range(start, start + size);
        TakesMeans(found, one, |b|);
        if Takes(found, one, |b|) {
          ReadFromExact(b, entry + 4, end, found + [one]);
        }
        if EntriesAt(b, entry + 4, end).Some? {
          var rest := EntriesAt(b, entry + 4, end).value;
          assert found + ([one] + rest) == found + [one] + rest;
          if LegalFrames(found + [one] + rest, |b|) {
            LegalPrefix(found + [one], rest, |b|);
          }
        }
      }
    }
  }

  lemma TakesMeans(found: seq<Range>, one: Range, length: nat)
    requires LegalFrames(found, length)
    ensures Takes(found, one, length) <==> LegalFrames(found + [one], length)
  {
    LegalSnoc(found, one, length);
  }

  /** The loop over the entries of one table. */
  method ReadEntries(b: seq<byte>, offset: nat, ranges: seq<Range>) returns (r: Result<seq<Range>>)
    requires TableAt(b, offset)
    ensures r == ReadFrom(b, offset + 8, TableRange(b, offset).end, ranges)
  {
    hide WordAt;
    var end := offset + WordAt(b, offset + 4);
    var found := ranges;
    var entry := offset + 8;
    while entry < end
      invariant offset + 8 <= entry <= end && (end - entry) % 4 == 0
      invariant ReadFrom(b, entry, end, found) == ReadFrom(b, offset + 8, end, ranges)
    {
      var start, size := WordAt(b, entry), WordAt(b, entry + 2);
      if start == 0 && size == 0 {
        return Ok(found);
      }
      if start < HEADER || !(MIN_FRAME <= size <= MAX_FRAME) || start + size > |b| || |found| >= MAX_FRAMES {
        return Err(Bounds);
      }
      var one := Range(start, start + size);
      if exists i :: 0 <= i < |found| && Overlap(one, found[i]) {
        return Err(Malformed);
      }
      found := found + [one];
      entry := entry + 4;
    }
    return Err(Malformed);
  }

  /** The chain of tables from offset on, each checked as it is met against the tables and frames found before. */
  function Walk(b: seq<byte>, offset: nat, tables: seq<Range>, frames: seq<Range>): Result<Found>
    requires |tables| <= MAX_TABLES
    decreases MAX_TABLES - |tables|
  {
    if offset == 0 then Ok(Found(tables, frames))
    else if |tables| == MAX_TABLES then Err(Bounds)
    else if !TableAt(b, offset) then Err(if Unmarked(b, offset) then Unsupported else Bounds)
    else
      var table := TableRange(b, offset);
      if exists i :: 0 <= i < |tables| && Overlap(table, tables[i]) then Err(Malformed)
      else match ReadFrom(b, offset + 8, table.end, frames)
        case Err(error) => Err(error)
        case Ok(more) => Walk(b, WordAt(b, offset + 6), tables + [table], more)
  }

  /** A table could stand at offset, but its mark does not. */
  predicate Unmarked(b: seq<byte>, offset: nat) {
    offset >= HEADER && offset % 4 == 0 && (offset + 4 > |b| || b[offset..offset + 4] != NCM0)
  }

  /** And the walk accepts the same chains as collecting them first. */
  lemma {:induction false} WalkExact(b: seq<byte>, offset: nat, tables: seq<Range>, frames: seq<Range>)
    requires |tables| <= MAX_TABLES && Apart(tables) && LegalFrames(frames, |b|)
    ensures Agrees(Walk(b, offset, tables, frames),
                   match Collect(b, offset, MAX_TABLES - |tables|)
                   case None => None
                   case Some(f) =>
                     if Apart(tables + f.tables) && LegalFrames(frames + f.frames, |b|)
                     then Some(Found(tables + f.tables, frames + f.frames)) else None)
    decreases MAX_TABLES - |tables|
  {
    hide WordAt, LegalFrames, Apart, Overlap, TableAt, ReadFrom, EntriesAt;
    if offset == 0 {
      assert tables + [] == tables && frames + [] == frames;
    } else if |tables| < MAX_TABLES && TableAt(b, offset) {
      TableEnds(b, offset);
      var table, next := TableRange(b, offset), WordAt(b, offset + 6);
      var end := table.end;
      ApartSnoc(tables, table);
      ReadFromExact(b, offset + 8, end, frames);
      if Entries(b, offset).Some? {
        var entries := Entries(b, offset).value;
        if Apart(tables + [table]) && LegalFrames(frames + entries, |b|) {
          WalkExact(b, next, tables + [table], frames + entries);
        }
        if Collect(b, next, MAX_TABLES - |tables| - 1).Some? {
          WalkRest(b, tables, frames, table, entries, Collect(b, next, MAX_TABLES - |tables| - 1));
        }
      }
    }
  }

  lemma TableEnds(b: seq<byte>, offset: nat)
    requires TableAt(b, offset)
    ensures var end := TableRange(b, offset).end; offset + 12 <= end <= |b| && (end - (offset + 8)) % 4 == 0
  {
  }

  /** A whole chain is legal only if its first table and frames are. */
  lemma WalkRest(
    b: seq<byte>, tables: seq<Range>, frames: seq<Range>, table: Range, entries: seq<Range>, rest: Option<Found>)
    requires rest.Some?
    ensures tables + ([table] + rest.value.tables) == tables + [table] + rest.value.tables
    ensures frames + (entries + rest.value.frames) == frames + entries + rest.value.frames
    ensures Apart(tables + [table] + rest.value.tables) ==> Apart(tables + [table])
    ensures LegalFrames(frames + entries + rest.value.frames, |b|) ==> LegalFrames(frames + entries, |b|)
  {
    hide LegalFrames, Apart;
    if Apart(tables + [table] + rest.value.tables) {
      ApartPrefix(tables + [table], rest.value.tables);
    }
    if LegalFrames(frames + entries + rest.value.frames, |b|) {
      LegalPrefix(frames + entries, rest.value.frames, |b|);
    }
  }

  lemma HeaderIsNoTable(chain: seq<Range>, r: Range)
    requires r.start >= HEADER
    ensures var tables := [Range(0, HEADER)] + chain;
            (exists i :: 0 <= i < |tables| && Overlap(r, tables[i])) <==>
              exists i :: 0 <= i < |chain| && Overlap(r, chain[i])
  {
    var tables := [Range(0, HEADER)] + chain;
    assert forall i :: 0 <= i < |chain| ==> tables[i + 1] == chain[i];
    assert forall i :: 0 < i < |tables| ==> tables[i] == chain[i - 1];
  }

  /** The loop over the chain of tables; the first range it returns is the header. */
  method WalkTables(b: seq<byte>, first: nat) returns (r: Result<Found>)
    ensures r == match Walk(b, first, [], [])
                 case Err(error) => Err(error)
                 case Ok(f) => Ok(Found([Range(0, HEADER)] + f.tables, f.frames))
  {
    hide WordAt, Overlap, ReadFrom;
    var offset: nat := first;
    var tables, ranges := [Range(0, HEADER)], [];
    ghost var chain: seq<Range> := [];
    while offset != 0
      invariant tables == [Range(0, HEADER)] + chain && |chain| <= MAX_TABLES
      invariant Walk(b, offset, chain, ranges) == Walk(b, first, [], [])
      decreases MAX_TABLES - |chain|
    {
      if offset < HEADER || offset % 4 != 0 || |tables| > MAX_TABLES {
        return Err(Bounds);
      }
      if offset + 4 > |b| || b[offset..offset + 4] != NCM0 {
        return Err(Unsupported);
      }
      if offset + 6 > |b| {
        return Err(Bounds);
      }
      var size := WordAt(b, offset + 4);
      if size < 12 || size % 4 != 0 || offset + size > |b| {
        return Err(Bounds);
      }
      var table := Range(offset, offset + size);
      HeaderIsNoTable(chain, table);
      if exists i :: 0 <= i < |tables| && Overlap(table, tables[i]) {
        return Err(Malformed);
      }
      tables := tables + [table];
      var more := ReadEntries(b, offset, ranges);
      if more.Err? {
        return Err(more.error);
      }
      ranges := more.value;
      chain := chain + [table];
      offset := WordAt(b, offset + 6);
    }
    return Ok(Found(tables, ranges));
  }

  lemma ClearOfHeader(frames: seq<Range>, tables: seq<Range>, length: nat)
    requires LegalFrames(frames, length)
    ensures Clear(frames, [Range(0, HEADER)] + tables) <==> Clear(frames, tables)
  {
    hide Overlap;
    forall i | 0 <= i < |frames|
      ensures (exists j :: 0 <= j < |tables| + 1 && Overlap(frames[i], ([Range(0, HEADER)] + tables)[j]))
         <==> exists j :: 0 <= j < |tables| && Overlap(frames[i], tables[j])
    {
      assert LegalFrame(frames[i], length);
      HeaderIsNoTable(tables, frames[i]);
    }
  }

  /** What the reader makes of a block: its frames, or the first thing wrong with it. */
  function Reading(block: seq<byte>): Result<seq<seq<byte>>> {
    if |block| < HEADER || block[..4] != NCMH || WordAt(block, 4) != HEADER then Err(Malformed)
    else if !HeaderAt(block) then Err(Bounds)
    else
      var b := block[..WordAt(block, 8)];
      WalkFromStart(b, WordAt(b, 10));
      match Walk(b, WordAt(b, 10), [], [])
      case Err(error) => Err(error)
      case Ok(f) =>
        if Clear(f.frames, f.tables) then FramesInside(f.frames, |b|); Ok(Cut(b, f.frames)) else Err(Malformed)
  }

  /** The reader accepts exactly the blocks that are legal as a whole. */
  lemma ReadingExact(block: seq<byte>)
    ensures Agrees(Reading(block), FramesOf(block))
  {
    hide WordAt, Walk, Collect, Clear, LegalFrames, Apart;
    if HeaderAt(block) {
      var b := block[..WordAt(block, 8)];
      WalkFromStart(b, WordAt(b, 10));
    }
  }

  /** `ethernet_frames`. */
  method EthernetFrames(block: seq<byte>) returns (r: Result<seq<seq<byte>>>)
    ensures r == Reading(block) && Agrees(r, FramesOf(block))
  {
    ReadingExact(block);
    hide WordAt, Walk, Collect, Overlap, LegalFrame, Apart;
    if |block| < HEADER || block[..4] != NCMH || WordAt(block, 4) != HEADER {
      return Err(Malformed);
    }
    var length := WordAt(block, 8);
    if !(HEADER <= length <= MAX_BLOCK) || length > |block| {
      return Err(Bounds);
    }
    var b := block[..length];
    var first := WordAt(b, 10);
    WalkFromStart(b, first);
    var walked := WalkTables(b, first);
    if walked.Err? {
      return Err(walked.error);
    }
    var ranges, tables := walked.value.frames, walked.value.tables;
    ghost var f := Walk(b, first, [], []).value;
    ClearOfHeader(ranges, f.tables, |b|);
    if exists i, j :: 0 <= i < |ranges| && 0 <= j < |tables| && Overlap(ranges[i], tables[j]) {
      return Err(Malformed);
    }
    FramesInside(ranges, |b|);
    return Ok(Cut(b, ranges));
  }

  lemma FramesInside(frames: seq<Range>, length: nat)
    requires LegalFrames(frames, length)
    ensures forall i :: 0 <= i < |frames| ==> frames[i].start <= frames[i].end <= length
  {
    forall i | 0 <= i < |frames|
      ensures frames[i].start <= frames[i].end <= length
    {
      assert LegalFrame(frames[i], length);
    }
  }

  lemma WalkFromStart(b: seq<byte>, first: nat)
    ensures Agrees(Walk(b, first, [], []),
                   match Collect(b, first, MAX_TABLES)
                   case None => None
                   case Some(f) => if Apart(f.tables) && LegalFrames(f.frames, |b|) then Some(f) else None)
  {
    hide Walk, Collect, LegalFrame, Overlap;
    WalkExact(b, first, [], []);
    if Collect(b, first, MAX_TABLES).Some? {
      var f := Collect(b, first, MAX_TABLES).value;
      assert [] + f.tables == f.tables && [] + f.frames == f.frames;
    }
  }

  // ---- What an accepted block guarantees ----

  predicate In(position: nat, r: Range) {
    r.start <= position < r.end
  }

  lemma {:induction false} CollectFits(b: seq<byte>, offset: nat, room: nat)
    requires Collect(b, offset, room).Some?
    ensures var tables := Collect(b, offset, room).value.tables;
            && |tables| <= room
            && forall i :: 0 <= i < |tables| ==> HEADER <= tables[i].start < tables[i].end <= |b|
    decreases room
  {
    hide WordAt, Entries;
    if offset != 0 {
      TableEnds(b, offset);
      CollectFits(b, WordAt(b, offset + 6), room - 1);
    }
  }

  /**
   Every accepted block, whatever its bytes, has at most 8 tables and 32 frames of 14 to 4096 bytes, all inside the
   declared length and behind the header.
   */
  lemma AcceptedFits(block: seq<byte>)
    requires FramesOf(block).Some?
    ensures var f := Layout(block).value;
            var frames := FramesOf(block).value;
            && WordAt(block, 8) <= |block|
            && |f.tables| <= MAX_TABLES && |frames| == |f.frames| <= MAX_FRAMES
            && (forall i :: 0 <= i < |f.tables| ==> HEADER <= f.tables[i].start < f.tables[i].end <= WordAt(block, 8))
            && (forall i :: 0 <= i < |frames| ==>
                  && HEADER <= f.frames[i].start <= f.frames[i].end <= WordAt(block, 8)
                  && frames[i] == block[f.frames[i].start..f.frames[i].end]
                  && MIN_FRAME <= |frames[i]| <= MAX_FRAME)
  {
    hide Collect, Overlap, WordAt;
    var b := block[..WordAt(block, 8)];
    var f := Layout(block).value;
    CollectFits(b, WordAt(b, 10), MAX_TABLES);
    FramesInside(f.frames, |b|);
    assert forall i :: 0 <= i < |f.frames| ==> LegalFrame(f.frames[i], |b|);
  }

  /** No byte of the block belongs to two frames. */
  lemma FramesAreDisjoint(block: seq<byte>, i: nat, j: nat, p: nat)
    requires FramesOf(block).Some?
    requires i < |Layout(block).value.frames| && j < |Layout(block).value.frames| && i != j
    ensures !(In(p, Layout(block).value.frames[i]) && In(p, Layout(block).value.frames[j]))
  {
    hide Collect, Overlap, In;
    var frames := Layout(block).value.frames;
    assert Apart(frames);
    if In(p, frames[i]) && In(p, frames[j]) {
      OverlapMeans(frames[i], frames[j], p);
      OverlapMeans(frames[j], frames[i], p);
      assert false;
    }
  }

  /** And none to a frame and a table. */
  lemma FramesAvoidTables(block: seq<byte>, i: nat, j: nat, p: nat)
    requires FramesOf(block).Some?
    requires i < |Layout(block).value.frames| && j < |Layout(block).value.tables|
    ensures !(In(p, Layout(block).value.frames[i]) && In(p, Layout(block).value.tables[j]))
  {
    hide Collect, Overlap, In;
    var f := Layout(block).value;
    assert Clear(f.frames, f.tables);
    if In(p, f.frames[i]) && In(p, f.tables[j]) {
      OverlapMeans(f.frames[i], f.tables[j], p);
      assert false;
    }
  }

  lemma OverlapMeans(a: Range, b: Range, p: nat)
    requires In(p, a) && In(p, b)
    ensures Overlap(a, b)
  {
  }

  // ---- The writer ----

  const PREFIX: nat := 28

  function Prefix(size: u16, sequence: u16): (r: seq<byte>)
    requires size + PREFIX <= 0xffff
    ensures |r| == PREFIX
  {
    NCMH + LittleWord(12) + LittleWord(sequence) + LittleWord(size + PREFIX) + LittleWord(12)
    + NCM0 + LittleWord(16) + Zeros(2) + LittleWord(PREFIX) + LittleWord(size) + Zeros(4)
  }

  /** A block with one frame, one byte longer when it would fill whole USB packets. */
  function BlockOf(frame: seq<byte>, sequence: u16): seq<byte>
    requires MIN_FRAME <= |frame| <= MAX_FRAME
  {
    Prefix(|frame|, sequence) + frame + if (|frame| + PREFIX) % PACKET == 0 then [0] else []
  }

  function Zeros(n: nat): (r: seq<byte>)
    ensures |r| == n && forall i :: 0 <= i < n ==> r[i] == 0
  {
    seq(n, _ => 0)
  }

  function Placed(bytes: seq<byte>, at: nat, part: seq<byte>): (r: seq<byte>)
    requires at + |part| <= |bytes|
    ensures |r| == |bytes|
  {
    bytes[..at] + part + bytes[at + |part|..]
  }

  /** The writes to the first 16 bytes of a buffer of zeros, in the writer's order. */
  function StampedHeader(length: u16, sequence: u16, size: nat): (r: seq<byte>)
    requires size >= 16
    ensures |r| == size
  {
    var b := Placed(Placed(Zeros(size), 0, NCMH), 12, NCM0);
    var b := Placed(Placed(b, 4, LittleWord(12)), 6, LittleWord(sequence));
    Placed(Placed(b, 8, LittleWord(length)), 10, LittleWord(12))
  }

  /** And those to the rest. */
  function StampedTable(b: seq<byte>, frame: seq<byte>): (r: seq<byte>)
    requires |frame| <= MAX_FRAME && |b| >= |frame| + PREFIX
    ensures |r| == |b|
  {
    var b := Placed(Placed(b, 16, LittleWord(16)), 20, LittleWord(PREFIX));
    Placed(Placed(b, 22, LittleWord(|frame|)), PREFIX, frame)
  }

  /** A part written at the start of a gap of zeros. */
  lemma FillGap(a: seq<byte>, gap: nat, b: seq<byte>, part: seq<byte>)
    requires |part| <= gap
    ensures Placed(a + Zeros(gap) + b, |a|, part) == (a + part) + Zeros(gap - |part|) + b
  {
  }

  lemma FillTail(a: seq<byte>, gap: nat, skip: nat, part: seq<byte>)
    requires skip + |part| <= gap
    ensures Placed(a + Zeros(gap), |a| + skip, part) == a + Zeros(skip) + part + Zeros(gap - skip - |part|)
  {
  }

  lemma HeaderStamped(length: u16, sequence: u16, size: nat)
    requires size >= 16
    ensures StampedHeader(length, sequence, size)
         == NCMH + LittleWord(12) + LittleWord(sequence) + LittleWord(length) + LittleWord(12) + NCM0 + Zeros(size - 16)
  {
    hide LittleWord, Placed, Zeros;
    var rest := NCM0 + Zeros(size - 16);
    FillTail([], size, 0, NCMH);
    assert [] + Zeros(size) == Zeros(size) && [] + Zeros(0) + NCMH == NCMH;
    FillTail(NCMH, size - 4, 8, NCM0);
    assert NCMH + Zeros(8) + NCM0 + Zeros(size - 16) == NCMH + Zeros(8) + rest;
    FillGap(NCMH, 8, rest, LittleWord(12));
    var head := NCMH + LittleWord(12);
    FillGap(head, 6, rest, LittleWord(sequence));
    head := head + LittleWord(sequence);
    FillGap(head, 4, rest, LittleWord(length));
    head := head + LittleWord(length);
    FillGap(head, 2, rest, LittleWord(12));
    head := head + LittleWord(12);
    assert head + Zeros(0) + rest == head + NCM0 + Zeros(size - 16);
  }

  lemma TableStamped(a: seq<byte>, gap: nat, frame: seq<byte>)
    requires |a| == 16 && |frame| <= MAX_FRAME && gap >= |frame| + 12
    ensures StampedTable(a + Zeros(gap), frame)
         == a + LittleWord(16) + Zeros(2) + LittleWord(PREFIX) + LittleWord(|frame|) + Zeros(4) + frame
            + Zeros(gap - 12 - |frame|)
  {
    hide LittleWord, Placed, Zeros;
    FillTail(a, gap, 0, LittleWord(16));
    assert a + Zeros(0) + LittleWord(16) == a + LittleWord(16);
    var all := a + LittleWord(16);
    FillTail(all, gap - 2, 2, LittleWord(PREFIX));
    all := all + Zeros(2) + LittleWord(PREFIX);
    FillTail(all, gap - 6, 0, LittleWord(|frame|));
    assert all + Zeros(0) + LittleWord(|frame|) == all + LittleWord(|frame|);
    all := all + LittleWord(|frame|);
    FillTail(all, gap - 8, 4, frame);
  }

  lemma StampedIsBlock(frame: seq<byte>, sequence: u16)
    requires MIN_FRAME <= |frame| <= MAX_FRAME
    ensures var length := |frame| + PREFIX;
            var size := length + if length % PACKET == 0 then 1 else 0;
            StampedTable(StampedHeader(length, sequence, size), frame) == BlockOf(frame, sequence)
  {
    hide LittleWord, StampedHeader, StampedTable;
    var length := |frame| + PREFIX;
    var size := length + if length % PACKET == 0 then 1 else 0;
    HeaderStamped(length, sequence, size);
    var a := NCMH + LittleWord(12) + LittleWord(sequence) + LittleWord(length) + LittleWord(12) + NCM0;
    TableStamped(a, size - 16, frame);
    assert Zeros(size - length) == if length % PACKET == 0 then [0] else [];
  }

  /** `copy_from_slice` into a part of a buffer. */
  method CopyInto(out: array<byte>, at: nat, part: seq<byte>)
    requires at + |part| <= out.Length
    modifies out
    ensures out[..] == Placed(old(out[..]), at, part)
  {
    for i := 0 to |part|
      invariant forall k :: 0 <= k < out.Length ==>
                  out[k] == if at <= k < at + i then part[k - at] else old(out[..])[k]
    {
      out[at + i] := part[i];
    }
  }

  /** `ntb`. */
  method Ntb(frame: seq<byte>, sequence: u16) returns (r: Result<seq<byte>>)
    ensures r == if MIN_FRAME <= |frame| <= MAX_FRAME then Ok(BlockOf(frame, sequence)) else Err(Bounds)
  {
    if !(MIN_FRAME <= |frame| <= MAX_FRAME) {
      return Err(Bounds);
    }
    hide LittleWord, Placed;
    var length := |frame| + PREFIX;
    var size := length + if length % PACKET == 0 then 1 else 0;
    var out := new byte[size](_ => 0);
    assert out[..] == Zeros(size);
    CopyInto(out, 0, NCMH);
    CopyInto(out, 12, NCM0);
    CopyInto(out, 4, LittleWord(12));
    CopyInto(out, 6, LittleWord(sequence));
    CopyInto(out, 8, LittleWord(length));
    CopyInto(out, 10, LittleWord(12));
    CopyInto(out, 16, LittleWord(16));
    CopyInto(out, 20, LittleWord(PREFIX));
    CopyInto(out, 22, LittleWord(|frame|));
    CopyInto(out, PREFIX, frame);
    StampedIsBlock(frame, sequence);
    return Ok(out[..]);
  }

  // ---- Writing and reading back ----

  /** The fields of the first 28 bytes, as the reader meets them. */
  lemma PrefixReads(frame: seq<byte>, sequence: u16)
    requires MIN_FRAME <= |frame| <= MAX_FRAME
    ensures var block := BlockOf(frame, sequence);
            var length := |frame| + PREFIX;
            && length <= |block|
            && block[..4] == NCMH && block[12..16] == NCM0
            && WordAt(block, 4) == 12 && WordAt(block, 8) == length && WordAt(block, 10) == 12
            && WordAt(block, 16) == 16 && WordAt(block, 18) == 0
            && WordAt(block, 20) == PREFIX && WordAt(block, 22) == |frame|
            && WordAt(block, 24) == 0 && WordAt(block, 26) == 0
            && block[PREFIX..length] == frame
  {
    hide LittleWord, U16Little, Zeros;
    var block := BlockOf(frame, sequence);
    var length := |frame| + PREFIX;
    var f4 := NCMH;
    var f6 := f4 + LittleWord(12);
    var f8 := f6 + LittleWord(sequence);
    var f10 := f8 + LittleWord(length);
    var f12 := f10 + LittleWord(12);
    var f16 := f12 + NCM0;
    var f18 := f16 + LittleWord(16);
    var f20 := f18 + Zeros(2);
    var f22 := f20 + LittleWord(PREFIX);
    var f24 := f22 + LittleWord(|frame|);
    var f28 := f24 + Zeros(4);
    assert f28 == Prefix(|frame|, sequence);
    BlockFront(f28, frame, if length % PACKET == 0 then [0] else []);
    FieldAt(block, f24, Zeros(4));
    FieldAt(block, f22, LittleWord(|frame|));
    FieldAt(block, f20, LittleWord(PREFIX));
    FieldAt(block, f18, Zeros(2));
    FieldAt(block, f16, LittleWord(16));
    FieldAt(block, f12, NCM0);
    FieldAt(block, f10, LittleWord(12));
    FieldAt(block, f8, LittleWord(length));
    FieldAt(block, f6, LittleWord(sequence));
    FieldAt(block, f4, LittleWord(12));
    PairAt(block, 4, 12);
    PairAt(block, 8, length);
    PairAt(block, 10, 12);
    PairAt(block, 16, 16);
    ZerosAt(block, 18, 2);
    PairAt(block, 20, PREFIX);
    PairAt(block, 22, |frame|);
    ZerosAt(block, 24, 4);
    ZeroWord();
  }

  lemma BlockFront(front: seq<byte>, frame: seq<byte>, pad: seq<byte>)
    ensures var block := front + frame + pad;
            && block[..|front|] == front
            && block[|front|..|front| + |frame|] == frame
  {
  }

  /** The part before a prefix's last field is a prefix too, and the field stands behind it. */
  lemma FieldAt(block: seq<byte>, front: seq<byte>, field: seq<byte>)
    requires |front| + |field| <= |block| && block[..|front| + |field|] == front + field
    ensures block[..|front|] == front
    ensures block[|front|..|front| + |field|] == field
  {
    var all := block[..|front| + |field|];
    assert all[..|front|] == block[..|front|] && all[|front|..] == block[|front|..|front| + |field|];
    Joined(front, field);
  }

  lemma ZerosAt(block: seq<byte>, i: nat, n: nat)
    requires i + n <= |block| && block[i..i + n] == Zeros(n)
    ensures forall k :: i <= k < i + n ==> block[k] == 0
  {
    assert forall k :: i <= k < i + n ==> block[k] == block[i..i + n][k - i];
  }

  lemma ZeroWord()
    ensures U16Little(0, 0) == 0
  {
  }

  lemma PairAt(p: seq<byte>, i: nat, n: u16)
    requires i + 2 <= |p| && p[i..i + 2] == LittleWord(n)
    ensures U16Little(p[i], p[i + 1]) == n
  {
    hide LittleWord, U16Little;
    assert p[i] == LittleWord(n)[0] && p[i + 1] == LittleWord(n)[1];
  }

  /** For every legal frame and sequence number, the block written is read back as that frame and nothing else. */
  lemma BlockRoundTrip(frame: seq<byte>, sequence: u16)
    requires MIN_FRAME <= |frame| <= MAX_FRAME
    ensures FramesOf(BlockOf(frame, sequence)) == Some([frame])
  {
    var block := BlockOf(frame, sequence);
    var length := |frame| + PREFIX;
    PrefixReads(frame, sequence);
    hide BlockOf, WordAt, Collect, Entries, Legal, Cut;
    var b := block[..length];
    assert b[..4] == NCMH && b[12..16] == NCM0 && b[PREFIX..length] == frame;
    assert forall i :: 0 <= i && i + 2 <= length ==> WordAt(b, i) == WordAt(block, i) by {
      forall i: nat | i + 2 <= length
        ensures WordAt(b, i) == WordAt(block, i)
      {
        SameWordAt(block, length, i);
      }
    }
    var one := Range(PREFIX, length);
    OneEntry(b);
    OneTable(b, one);
    OneIsLegal(length);
    assert Layout(block) == Some(Found([Range(12, PREFIX)], [one]));
    CutOne(b, one);
  }

  lemma SameWordAt(block: seq<byte>, length: nat, i: nat)
    requires i + 2 <= length <= |block|
    ensures WordAt(block[..length], i) == WordAt(block, i)
  {
  }

  lemma OneIsLegal(length: nat)
    requires PREFIX + MIN_FRAME <= length <= PREFIX + MAX_FRAME
    ensures Legal(Found([Range(12, PREFIX)], [Range(PREFIX, length)]), length)
  {
  }

  lemma CutOne(b: seq<byte>, one: Range)
    requires one.start <= one.end <= |b|
    ensures Cut(b, [one]) == [b[one.start..one.end]]
  {
  }

  lemma OneEntry(b: seq<byte>)
    requires PREFIX + MIN_FRAME <= |b| && b[12..16] == NCM0 && WordAt(b, 16) == 16 && WordAt(b, 20) == PREFIX
    requires WordAt(b, 22) == |b| - PREFIX && WordAt(b, 24) == 0 && WordAt(b, 26) == 0
    ensures TableAt(b, 12) && TableRange(b, 12) == Range(12, PREFIX) && Entries(b, 12) == Some([Range(PREFIX, |b|)])
  {
    hide WordAt;
    assert EntriesAt(b, 24, 28) == Some([]);
    assert [Range(PREFIX, |b|)] + [] == [Range(PREFIX, |b|)];
  }

  lemma OneTable(b: seq<byte>, one: Range)
    requires TableAt(b, 12) && Entries(b, 12) == Some([one]) && WordAt(b, 18) == 0
    ensures Collect(b, 12, MAX_TABLES) == Some(Found([TableRange(b, 12)], [one]))
  {
    hide WordAt, TableAt, EntriesAt;
    assert Collect(b, 0, MAX_TABLES - 1) == Some(Found([], []));
    assert [TableRange(b, 12)] + [] == [TableRange(b, 12)] && [one] + [] == [one];
  }

  /** No block fills whole 512-byte USB packets, so its end is always visible to the peer. */
  lemma BlockEndsShort(frame: seq<byte>, sequence: u16)
    requires MIN_FRAME <= |frame| <= MAX_FRAME
    ensures |BlockOf(frame, sequence)| % PACKET != 0
    ensures |frame| + PREFIX <= |BlockOf(frame, sequence)| <= |frame| + PREFIX + 1
  {
  }
}