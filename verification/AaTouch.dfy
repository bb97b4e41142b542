/**
 Android Auto input reports: host pointers are given contact identifiers for as long as they are down, and each touch is
 reported with all contacts. A contact tracker, as the phone keeps one, follows the reports. Coordinates arrive as
 integer points, or as None when the source would refuse them.
 */
module AaTouch {
  import opened Bytes

  const CONTACTS: nat := 10
  const KEYS: nat := 0x1_0000

  const DOWN: byte := 0
  const UP: byte := 1
  const MOVE: byte := 2
  const CANCEL: byte := 3
  const POINTER_DOWN: byte := 5
  const POINTER_UP: byte := 6

  datatype Point = Point(x: nat, y: nat)

  datatype Contact = Contact(wire: byte, at: Point)

  type Pointers = map<u16, Contact>

  datatype Report = Report(contacts: seq<Contact>, index: nat, action: byte)

  datatype Reply = Ignored | Invalid | Reported(report: Report)

  datatype Input = Input(open: bool, pointers: Pointers)

  /** The contacts of the pointers below n, in the order of the pointers. */
  function Listing(pointers: Pointers, n: nat): seq<Contact>
    requires n <= KEYS
  {
    if n == 0 then []
    else Listing(pointers, n - 1) + if n - 1 in pointers then [pointers[n - 1]] else []
  }

  predicate Used(pointers: Pointers, wire: nat) {
    exists k :: k in pointers && pointers[k].wire == wire
  }

  /** The first identifier from wire on that is free; None when all ten are taken. */
  function FreeFrom(pointers: Pointers, wire: nat): Option<byte>
    requires wire <= CONTACTS
    decreases CONTACTS - wire
  {
    if wire == CONTACTS then None
    else if !Used(pointers, wire) then Some(wire)
    else FreeFrom(pointers, wire + 1)
  }

  predicate Dropped(s: Input, pointer: u16, phase: nat) {
    if phase == 0 then |s.pointers| >= CONTACTS || pointer in s.pointers else pointer !in s.pointers
  }

  /** The pointers with the touched one in place; it keeps its identifier, or gets the first free one. */
  function Inserted(pointers: Pointers, pointer: u16, at: Point): Pointers {
    pointers[pointer := Contact(WireOf(pointers, pointer), at)]
  }

  function WireOf(pointers: Pointers, pointer: u16): byte {
    if pointer in pointers then pointers[pointer].wire
    else match FreeFrom(pointers, 0) case Some(wire) => wire case None => 0
  }

  function ActionOf(phase: nat, count: nat): byte {
    if phase == 0 then if count > 1 then POINTER_DOWN else DOWN
    else if phase == 1 then MOVE
    else if phase == 2 then if count > 1 then POINTER_UP else UP
    else CANCEL
  }

  /** The pointers that stay down after the report: a cancel ends them all. */
  function Left(all: Pointers, pointer: u16, phase: nat): Pointers {
    if phase == 3 then map[] else if phase == 2 then all - {pointer} else all
  }

  function Touch(s: Input, pointer: u16, phase: nat, at: Option<Point>): (Input, Reply) {
    if !s.open then (s, Ignored)
    else if at.None? || phase > 3 then (s, Invalid)
    else if Dropped(s, pointer, phase) then (s, Ignored)
    else
      var all := Inserted(s.pointers, pointer, at.value);
      var report := Report(Listing(all, KEYS), |Listing(all, pointer)|, ActionOf(phase, |all|));
      (s.(pointers := Left(all, pointer, phase)), Reported(report))
  }

  class Channels {
    var open: bool
    var pointers: Pointers

    constructor ()
      ensures View() == Input(false, map[])
    {
      open, pointers := false, map[];
    }

    ghost function View(): Input
      reads this
    {
      Input(open, pointers)
    }

    /** `Channels::touch`; the expectation that a free identifier exists is an assertion. */
    method HandleTouch(pointer: u16, phase: nat, at: Option<Point>) returns (reply: Reply)
      requires Valid(View())
      modifies this
      ensures (View(), reply) == Touch(old(View()), pointer, phase, at)
    {
      hide Used;
      if !open {
        return Ignored;
      }
      if at.None? || phase > 3 {
        return Invalid;
      }
      if phase == 0 {
        if |pointers| >= CONTACTS || pointer in pointers {
          return Ignored;
        }
      } else if pointer !in pointers {
        return Ignored;
      }
      var wire: byte;
      if pointer in pointers {
        wire := pointers[pointer].wire;
      } else {
        var id := 0;
        FreeExists(pointers);
        while id < CONTACTS && Used(pointers, id)
          invariant id <= CONTACTS && FreeFrom(pointers, id) == FreeFrom(pointers, 0)
        {
          id := id + 1;
        }
        assert id < CONTACTS;
        wire := id;
      }
      pointers := pointers[pointer := Contact(wire, at.value)];
      var contacts, index := [], 0;
      for id := 0 to KEYS
        invariant contacts == Listing(pointers, id)
        invariant index == if id > pointer then |Listing(pointers, pointer)| else 0
      {
        if id in pointers {
          if id == pointer {
            index := |contacts|;
          }
          contacts := contacts + [pointers[id]];
        }
      }
      var action :=
        if phase == 0 then if |pointers| > 1 then POINTER_DOWN else DOWN
        else if phase == 1 then MOVE
        else if phase == 2 then if |pointers| > 1 then POINTER_UP else UP
        else CANCEL;
      if phase == 3 {
        pointers := map[];
      } else if phase == 2 {
        pointers := pointers - {pointer};
      }
      return Reported(Report(contacts, index, action));
    }
  }

  // ---- What every state keeps ----

  /** At most ten contacts, each with its own identifier from 0 to 9. */
  ghost predicate Valid(s: Input) {
    && |s.pointers| <= CONTACTS
    && Injective(s.pointers)
  }

  ghost predicate Injective(pointers: Pointers) {
    && (forall k :: k in pointers ==> pointers[k].wire < CONTACTS)
    && (forall j, k :: j in pointers && k in pointers && j != k ==> pointers[j].wire != pointers[k].wire)
  }

  /** The pointers whose identifier is below n. */
  function Holders(pointers: Pointers, n: nat): set<u16> {
    set k | k in pointers && pointers[k].wire < n
  }

  lemma {:induction false} TakenNeedsKeys(pointers: Pointers, n: nat)
    requires n <= CONTACTS && forall wire :: 0 <= wire < n ==> Used(pointers, wire)
    ensures |Holders(pointers, n)| >= n
  {
    if n > 0 {
      TakenNeedsKeys(pointers, n - 1);
      assert Used(pointers, n - 1);
      var key :| key in pointers && pointers[key].wire == n - 1;
      Larger(Holders(pointers, n - 1) + {key}, Holders(pointers, n));
    }
  }

  lemma Larger<T>(a: set<T>, b: set<T>)
    requires a <= b
    ensures |a| <= |b|
  {
    assert b == a + (b - a);
  }

  lemma {:induction false} FreeFromMeans(pointers: Pointers, wire: nat)
    requires wire <= CONTACTS
    ensures match FreeFrom(pointers, wire)
            case Some(free) => wire <= free < CONTACTS && !Used(pointers, free)
            case None => forall w :: wire <= w < CONTACTS ==> Used(pointers, w)
    decreases CONTACTS - wire
  {
    if wire < CONTACTS {
      FreeFromMeans(pointers, wire + 1);
    }
  }

  /** The search for an identifier never fails: ten cannot be taken by fewer than ten contacts. */
  lemma FreeExists(pointers: Pointers)
    requires |pointers| < CONTACTS
    ensures FreeFrom(pointers, 0).Some?
    ensures !Used(pointers, FreeFrom(pointers, 0).value) && FreeFrom(pointers, 0).value < CONTACTS
  {
    FreeFromMeans(pointers, 0);
    assert |pointers.Keys| == |pointers|;
    if FreeFrom(pointers, 0).None? {
      TakenNeedsKeys(pointers, CONTACTS);
      Larger(Holders(pointers, CONTACTS), pointers.Keys);
    }
  }

  lemma InsertedKeeps(pointers: Pointers, pointer: u16, at: Point)
    requires Injective(pointers) && (pointer in pointers || |pointers| < CONTACTS)
    ensures var all := Inserted(pointers, pointer, at);
            && Injective(all)
            && all.Keys == pointers.Keys + {pointer}
            && all[pointer].at == at
            && (forall k :: k in pointers ==> all[k].wire == pointers[k].wire)
            && (forall k :: k in pointers && k != pointer ==> all[k] == pointers[k])
            && (pointer !in pointers ==> !Used(pointers, all[pointer].wire))
  {
    if pointer !in pointers {
      FreeExists(pointers);
    }
    assert WireOf(pointers, pointer) < CONTACTS;
    assert pointer !in pointers ==> !Used(pointers, WireOf(pointers, pointer));
    hide FreeFrom, WireOf, Used;
    Distinguished(pointers, pointer);
  }

  lemma Distinguished(pointers: Pointers, pointer: u16)
    requires Injective(pointers) && (pointer in pointers || |pointers| < CONTACTS)
    ensures forall k :: k in pointers && k != pointer ==> pointers[k].wire != WireOf(pointers, pointer)
  {
    hide FreeFrom;
    if pointer !in pointers {
      FreeExists(pointers);
    }
  }

  /** Every state a touch leaves is valid, and a contact keeps its identifier as long as it is down. */
  lemma TouchKeepsContacts(s: Input, pointer: u16, phase: nat, at: Option<Point>)
    requires Valid(s)
    ensures Valid(Touch(s, pointer, phase, at).0)
    ensures forall k :: k in s.pointers && k in Touch(s, pointer, phase, at).0.pointers ==>
              Touch(s, pointer, phase, at).0.pointers[k].wire == s.pointers[k].wire
  {
    hide Inserted, Injective, Listing, Left;
    if s.open && at.Some? && phase <= 3 && !Dropped(s, pointer, phase) {
      var all := Inserted(s.pointers, pointer, at.value);
      InsertedKeeps(s.pointers, pointer, at.value);
      Sizes(s.pointers, all, pointer);
      LeftKeeps(all, pointer, phase);
    }
  }

  lemma LeftKeeps(all: Pointers, pointer: u16, phase: nat)
    requires Injective(all)
    ensures var left := Left(all, pointer, phase);
            && Injective(left)
            && |left| <= |all|
            && forall k :: k in left ==> k in all && left[k] == all[k]
  {
    var left := Left(all, pointer, phase);
    assert left.Keys <= all.Keys;
    Larger(left.Keys, all.Keys);
    assert |all.Keys| == |all| && |left.Keys| == |left|;
  }

  lemma Sizes(before: Pointers, all: Pointers, pointer: u16)
    requires all.Keys == before.Keys + {pointer}
    ensures |all| == |before| + if pointer in before then 0 else 1
    ensures |all| > 1 <==> all.Keys - {pointer} != {}
  {
    assert |all.Keys| == |all| && |before.Keys| == |before|;
    assert all.Keys == (all.Keys - {pointer}) + {pointer};
    if pointer in before {
      assert all.Keys == before.Keys;
    }
    if all.Keys - {pointer} == {} {
      assert all.Keys == {pointer};
    } else {
      assert |all.Keys - {pointer}| > 0;
    }
  }

  // ---- The phone's contact tracker ----

  /** Identifiers of the contacts that are down, and where they were last reported. */
  type Tracker = map<byte, Point>

  predicate Distinct(contacts: seq<Contact>) {
    forall i, j :: 0 <= i < j < |contacts| ==> contacts[i].wire != contacts[j].wire
  }

  function Listed(contacts: seq<Contact>): Tracker {
    if contacts == [] then map[]
    else
      var last := contacts[|contacts| - 1];
      Listed(contacts[..|contacts| - 1])[last.wire := last.at]
  }

  /** All contacts but the acting one are where they were. */
  predicate OnlyActingMoves(t: Tracker, listed: Tracker, acting: byte) {
    forall wire :: wire in listed && wire != acting ==> wire in t && t[wire] == listed[wire]
  }

  /** The tracker after a report; None when the report makes no sense to it. */
  function Track(t: Tracker, r: Report): Option<Tracker> {
    if !Distinct(r.contacts) || r.index >= |r.contacts| then None
    else
      var listed := Listed(r.contacts);
      var acting := r.contacts[r.index].wire;
      if !OnlyActingMoves(t, listed, acting) then None
      else if r.action == DOWN then
        if t == map[] && listed.Keys == {acting} then Some(listed) else None
      else if r.action == POINTER_DOWN then
        if t != map[] && acting !in t && listed.Keys == t.Keys + {acting} then Some(listed) else None
      else if listed.Keys != t.Keys then None
      else if r.action == MOVE then Some(listed)
      else if r.action == POINTER_UP then
        if listed.Keys != {acting} then Some(listed - {acting}) else None
      else if r.action == UP then
        if listed.Keys == {acting} then Some(map[]) else None
      else if r.action == CANCEL then Some(map[])
      else None
  }

  /** The tracker has exactly the contacts of the pointers, where they are. */
  ghost predicate Mirrors(t: Tracker, pointers: Pointers) {
    && (forall k :: k in pointers ==> pointers[k].wire in t && t[pointers[k].wire] == pointers[k].at)
    && (forall wire :: wire in t ==> Used(pointers, wire))
  }

  // ---- Runs ----

  datatype Step = OpenInput | Finger(pointer: u16, phase: nat, at: Option<Point>)

  function Run(steps: seq<Step>): (Input, seq<Report>) {
    if steps == [] then (Input(false, map[]), [])
    else
      var (s, reports) := Run(steps[..|steps| - 1]);
      match steps[|steps| - 1]
      case OpenInput => (s.(open := true), reports)
      case Finger(pointer, phase, at) =>
        match Touch(s, pointer, phase, at)
        case (s', Reported(report)) => (s', reports + [report])
        case (s', _) => (s', reports)
  }

  function Follow(reports: seq<Report>): Option<Tracker> {
    if reports == [] then Some(map[])
    else match Follow(reports[..|reports| - 1])
      case None => None
      case Some(t) => Track(t, reports[|reports| - 1])
  }

  // ---- The tracker follows ----

  function Below(pointers: Pointers, n: nat): Pointers {
    map k | k in pointers && k < n :: pointers[k]
  }

  lemma {:induction false} ListedHas(contacts: seq<Contact>, i: nat)
    requires i < |contacts|
    ensures contacts[i].wire in Listed(contacts)
  {
    var n := |contacts| - 1;
    if i < n {
      ListedHas(contacts[..n], i);
    }
  }

  lemma MirrorAdd(t: Tracker, pointers: Pointers, key: u16, contact: Contact)
    requires Mirrors(t, pointers) && key !in pointers && !Used(pointers, contact.wire)
    ensures Mirrors(t[contact.wire := contact.at], pointers[key := contact])
  {
    var t', all := t[contact.wire := contact.at], pointers[key := contact];
    forall wire | wire in t'
      ensures Used(all, wire)
    {
      if wire == contact.wire {
        assert all[key].wire == wire;
      } else {
        assert Used(pointers, wire);
        var k :| k in pointers && pointers[k].wire == wire;
        assert all[k].wire == wire;
      }
    }
  }

  lemma DistinctAdd(contacts: seq<Contact>, c: Contact)
    requires Distinct(contacts) && c.wire !in Listed(contacts)
    ensures Distinct(contacts + [c])
    ensures Listed(contacts + [c]) == Listed(contacts)[c.wire := c.at]
  {
    assert (contacts + [c])[..|contacts|] == contacts;
    forall i | 0 <= i < |contacts|
      ensures contacts[i].wire != c.wire
    {
      ListedHas(contacts, i);
    }
  }

  /** The contacts listed for the pointers below n are those pointers' contacts, each once. */
  lemma {:induction false} ListingHolds(pointers: Pointers, n: nat)
    requires n <= KEYS && Injective(pointers)
    ensures Distinct(Listing(pointers, n)) && Mirrors(Listed(Listing(pointers, n)), Below(pointers, n))
  {
    hide Mirrors, Distinct, Listed, Used;
    if n == 0 {
      assert Below(pointers, 0) == map[];
      EmptyListing();
    } else {
      ListingHolds(pointers, n - 1);
      var before := Below(pointers, n - 1);
      if n - 1 in pointers {
        var c := pointers[n - 1];
        assert Below(pointers, n) == before[n - 1 := c];
        NewBelow(pointers, n - 1, Listed(Listing(pointers, n - 1)));
        MirrorAdd(Listed(Listing(pointers, n - 1)), before, n - 1, c);
        DistinctAdd(Listing(pointers, n - 1), c);
      } else {
        assert Listing(pointers, n) == Listing(pointers, n - 1);
        assert Below(pointers, n) == before;
      }
    }
  }

  lemma EmptyListing()
    ensures Distinct([]) && Mirrors(Listed([]), map[])
  {
  }

  lemma NewBelow(pointers: Pointers, n: u16, listed: Tracker)
    requires Injective(pointers) && n in pointers && Mirrors(listed, Below(pointers, n))
    ensures !Used(Below(pointers, n), pointers[n].wire) && pointers[n].wire !in listed
  {
  }

  lemma ListingMirrors(pointers: Pointers)
    requires Injective(pointers)
    ensures Distinct(Listing(pointers, KEYS)) && Mirrors(Listed(Listing(pointers, KEYS)), pointers)
  {
    hide Listing, Listed, Injective, Distinct, Mirrors;
    ListingHolds(pointers, KEYS);
    assert Below(pointers, KEYS) == pointers;
  }

  /** The place of a pointer in the report is the number of pointers before it. */
  lemma {:induction false} IndexNames(pointers: Pointers, n: nat, key: u16)
    requires key < n <= KEYS && key in pointers
    ensures |Listing(pointers, key)| < |Listing(pointers, n)|
    ensures Listing(pointers, n)[|Listing(pointers, key)|] == pointers[key]
  {
    if n - 1 > key {
      IndexNames(pointers, n - 1, key);
    }
  }

  /** The pointers before and after the touched one is put in place. */
  ghost predicate Grown(pointers: Pointers, all: Pointers, pointer: u16) {
    && all.Keys == pointers.Keys + {pointer}
    && (forall k :: k in pointers ==> all[k].wire == pointers[k].wire)
    && (forall k :: k in pointers && k != pointer ==> all[k] == pointers[k])
    && (pointer !in pointers ==> !Used(pointers, all[pointer].wire))
  }

  lemma OthersStay(t: Tracker, listed: Tracker, pointers: Pointers, all: Pointers, pointer: u16)
    requires Mirrors(t, pointers) && Mirrors(listed, all) && Grown(pointers, all, pointer)
    ensures OnlyActingMoves(t, listed, all[pointer].wire)
  {
    var acting := all[pointer].wire;
    forall wire | wire in listed && wire != acting
      ensures wire in t && t[wire] == listed[wire]
    {
      assert Used(all, wire);
      var k :| k in all && all[k].wire == wire;
      assert k in pointers && all[k] == pointers[k];
    }
  }

  /** How the identifiers listed relate to those the tracker had. */
  lemma KeysGrow(t: Tracker, listed: Tracker, pointers: Pointers, all: Pointers, pointer: u16)
    requires Mirrors(t, pointers) && Mirrors(listed, all) && Grown(pointers, all, pointer)
    ensures listed.Keys == t.Keys + {all[pointer].wire}
    ensures all[pointer].wire in t <==> pointer in pointers
  {
    OthersStay(t, listed, pointers, all, pointer);
    forall wire | wire in t
      ensures wire in listed
    {
      assert Used(pointers, wire);
      var k :| k in pointers && pointers[k].wire == wire;
      assert all[k].wire in listed;
    }
    assert all[pointer].wire in listed;
  }

  lemma OneContact(listed: Tracker, all: Pointers, pointer: u16)
    requires Mirrors(listed, all) && Injective(all) && pointer in all
    ensures listed.Keys == {all[pointer].wire} <==> all.Keys == {pointer}
  {
    if listed.Keys == {all[pointer].wire} {
      forall k | k in all
        ensures k == pointer
      {
        assert all[k].wire in listed;
      }
    }
    if all.Keys == {pointer} {
      forall wire | wire in listed
        ensures wire == all[pointer].wire
      {
        assert Used(all, wire);
      }
      assert all[pointer].wire in listed;
    }
  }

  lemma LiftMirrors(listed: Tracker, all: Pointers, pointer: u16)
    requires Mirrors(listed, all) && Injective(all) && pointer in all
    ensures Mirrors(listed - {all[pointer].wire}, all - {pointer})
    ensures Mirrors(map[], map[])
  {
    var acting := all[pointer].wire;
    forall wire | wire in listed - {acting}
      ensures Used(all - {pointer}, wire)
    {
      assert Used(all, wire);
      var k :| k in all && all[k].wire == wire;
      assert k in all - {pointer};
    }
  }

  /** One report: it names the touched contact, the tracker accepts it and is in step with the pointers after it. */
  lemma TouchIsTracked(s: Input, t: Tracker, pointer: u16, phase: nat, at: Option<Point>)
    requires Valid(s) && Mirrors(t, s.pointers)
    requires Touch(s, pointer, phase, at).1.Reported?
    ensures var (s', reply) := Touch(s, pointer, phase, at);
            var r := reply.report;
            && r.index < |r.contacts|
            && at.Some? && r.contacts[r.index].at == at.value
            && (pointer in s.pointers ==> r.contacts[r.index].wire == s.pointers[pointer].wire)
            && (pointer in s'.pointers ==> r.contacts[r.index] == s'.pointers[pointer])
            && Track(t, r).Some?
            && Mirrors(Track(t, r).value, s'.pointers)
  {
    var all := Inserted(s.pointers, pointer, at.value);
    InsertedKeeps(s.pointers, pointer, at.value);
    hide Inserted, Injective, Listing, Listed, Mirrors, Distinct, Used, Track, OnlyActingMoves, ActionOf, Left;
    assert Grown(s.pointers, all, pointer);
    hide Grown;
    Sizes(s.pointers, all, pointer);
    ListingMirrors(all);
    IndexNames(all, KEYS, pointer);
    var contacts := Listing(all, KEYS);
    var listed := Listed(contacts);
    OthersStay(t, listed, s.pointers, all, pointer);
    KeysGrow(t, listed, s.pointers, all, pointer);
    OneContact(listed, all, pointer);
    assert |all| > 1 <==> listed.Keys != {all[pointer].wire} by {
      assert all.Keys - {pointer} == {} <==> all.Keys == {pointer};
    }
    TrackPhase(t, contacts, |Listing(all, pointer)|, phase, |all|);
    LeftMirrors(listed, all, pointer, phase);
    LeftContact(all, pointer, phase);
  }

  lemma LeftContact(all: Pointers, pointer: u16, phase: nat)
    requires pointer in all
    ensures pointer in Left(all, pointer, phase) ==> Left(all, pointer, phase)[pointer] == all[pointer]
  {
  }

  lemma LeftMirrors(listed: Tracker, all: Pointers, pointer: u16, phase: nat)
    requires Mirrors(listed, all) && Injective(all) && pointer in all
    ensures Mirrors(Kept(listed, all[pointer].wire, phase), Left(all, pointer, phase))
  {
    LiftMirrors(listed, all, pointer);
  }

  /** What a tracker keeps of the listed contacts after a report of the phase. */
  function Kept(listed: Tracker, acting: byte, phase: nat): Tracker {
    if phase == 3 then map[] else if phase == 2 then listed - {acting} else listed
  }

  lemma TrackPhase(t: Tracker, contacts: seq<Contact>, index: nat, phase: nat, count: nat)
    requires Distinct(contacts) && index < |contacts| && phase <= 3
    requires OnlyActingMoves(t, Listed(contacts), contacts[index].wire)
    requires Listed(contacts).Keys == t.Keys + {contacts[index].wire}
    requires contacts[index].wire in t <==> phase != 0
    requires count > 1 <==> Listed(contacts).Keys != {contacts[index].wire}
    ensures Track(t, Report(contacts, index, ActionOf(phase, count)))
         == Some(Kept(Listed(contacts), contacts[index].wire, phase))
  {
    hide Distinct, Listed, OnlyActingMoves;
    var listed, acting := Listed(contacts), contacts[index].wire;
    if phase == 0 {
      assert t.Keys == listed.Keys - {acting};
      assert listed.Keys == {acting} <==> t.Keys == {};
    } else {
      assert listed.Keys == t.Keys;
      if listed.Keys == {acting} {
        assert listed - {acting} == map[];
      }
    }
  }

  /**
   In every run of touches, whatever the pointers and phases, the tracker that follows the reports accepts each of them
   and ends with exactly the contacts that are down, under their identifiers and at their last points; and the contacts
   are at most ten with distinct identifiers from 0 to 9.
   */
  lemma {:induction false} TrackerFollows(steps: seq<Step>)
    ensures var (s, reports) := Run(steps);
            && Valid(s)
            && Follow(reports).Some?
            && Mirrors(Follow(reports).value, s.pointers)
  {
    hide Touch, Track, Mirrors, Injective;
    if steps == [] {
      LiftNothing();
    } else {
      var n := |steps| - 1;
      TrackerFollows(steps[..n]);
      var (s, reports) := Run(steps[..n]);
      match steps[n]
      case OpenInput =>
      case Finger(pointer, phase, at) =>
        TouchKeepsContacts(s, pointer, phase, at);
        var (s', reply) := Touch(s, pointer, phase, at);
        if reply.Reported? {
          TouchIsTracked(s, Follow(reports).value, pointer, phase, at);
          var longer := reports + [reply.report];
          assert longer[..|reports|] == reports;
        } else {
          NoReportNoChange(s, pointer, phase, at);
        }
    }
  }

  lemma LiftNothing()
    ensures Mirrors(map[], map[]) && Injective(map[])
  {
  }

  lemma NoReportNoChange(s: Input, pointer: u16, phase: nat, at: Option<Point>)
    ensures !Touch(s, pointer, phase, at).1.Reported? ==> Touch(s, pointer, phase, at).0 == s
  {
  }
}
