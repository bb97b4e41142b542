/**
 The 64-packet replay window of the CarPlay audio receiver against the set of counters it has accepted, and the
 packet decoder that authenticates before it touches the window. The 64-bit word `bits` is written as the set of
 its one bits, so a left shift drops the positions it pushes past 63.
 */
module Replay {
  import opened Bytes

  const WORD: nat := 64

  datatype Window = Window(highest: Option<u64>, bits: set<nat>)

  const EMPTY := Window(None, {})

  /** `bits << k` on a 64-bit word. */
  function ShiftLeft(bits: set<nat>, k: nat): set<nat> {
    set i | i in bits && i + k < WORD :: i + k
  }

  /** The window after an accepted counter; None for a rejected one. */
  function Accept(w: Window, counter: u64): Option<Window> {
    match w.highest
    case None => Some(Window(Some(counter), {0}))
    case Some(high) =>
      if counter > high then
        Some(Window(Some(counter), if counter - high >= WORD then {0} else ShiftLeft(w.bits, counter - high) + {0}))
      else
        var behind := high - counter;
        if behind >= WORD || behind in w.bits then None
        else Some(w.(bits := w.bits + {behind}))
  }

  /** A datagram as the decoder sees it; `authentic` is whether its ciphertext opens under the stream key. */
  datatype Datagram = Datagram(size: nat, first: byte, counter: u64, authentic: bool)

  predicate Trustworthy(d: Datagram) {
    36 <= d.size <= 4096 && d.first == 0x80 && d.authentic
  }

  function Decode(w: Window, d: Datagram): (Window, bool) {
    if !(36 <= d.size <= 4096) || d.first != 0x80 then (w, false)
    else if !d.authentic then (w, false)
    else match Accept(w, d.counter)
      case None => (w, false)
      case Some(next) => (next, true)
  }

  class ReplayWindow {
    var highest: Option<u64>
    var bits: set<nat>

    constructor ()
      ensures View() == EMPTY
    {
      highest, bits := None, {};
    }

    ghost function View(): Window
      reads this
    {
      Window(highest, bits)
    }

    method Admit(counter: u64) returns (ok: bool)
      modifies this
      ensures ok <==> Accept(old(View()), counter).Some?
      ensures View() == if ok then Accept(old(View()), counter).value else old(View())
    {
      match highest {
        case None =>
          highest, bits := Some(counter), {0};
        case Some(high) =>
          if counter > high {
            bits := if counter - high >= WORD then {0} else ShiftLeft(bits, counter - high) + {0};
            highest := Some(counter);
          } else {
            var behind := high - counter;
            if behind >= WORD || behind in bits {
              return false;
            }
            bits := bits + {behind};
          }
      }
      return true;
    }

    /** `Decoder::packet`, as far as acceptance goes: authentication comes before the window is touched. */
    method Packet(d: Datagram) returns (ok: bool)
      modifies this
      ensures (View(), ok) == Decode(old(View()), d)
    {
      hide Accept;
      if !(36 <= d.size <= 4096) || d.first != 0x80 {
        return false;
      }
      if !d.authentic {
        return false;
      }
      ok := Admit(d.counter);
    }
  }

  // ---- The refinement ----

  /** Bit i of the window says whether the counter i behind the highest was accepted. */
  ghost predicate Refines(w: Window, accepted: set<u64>) {
    match w.highest
    case None => accepted == {} && w.bits == {}
    case Some(high) =>
      && high in accepted
      && (forall c :: c in accepted ==> c <= high)
      && (forall i: nat :: i in w.bits <==> i < WORD && i <= high && (high - i) in accepted)
  }

  /** What the window promises of a counter, in terms of the set alone. */
  predicate Admissible(highest: Option<u64>, accepted: set<u64>, counter: u64) {
    counter !in accepted && (highest.Some? ==> counter > highest.value - WORD)
  }

  lemma AdmitNewer(w: Window, accepted: set<u64>, counter: u64)
    requires Refines(w, accepted) && w.highest.Some? && counter > w.highest.value
    ensures Refines(Accept(w, counter).value, accepted + {counter})
  {
    var high := w.highest.value;
    var k := counter - high;
    forall i: nat
      ensures i in Accept(w, counter).value.bits <==> i < WORD && i <= counter && (counter - i) in accepted + {counter}
    {
      if i >= k {
        assert counter - i == high - (i - k);
        assert k < WORD ==> (i in ShiftLeft(w.bits, k) <==> i < WORD && (i - k) in w.bits);
      }
    }
  }

  /** One step of the refinement: acceptance is decided by the set, and the bitmap keeps describing it. */
  lemma AcceptRefines(w: Window, accepted: set<u64>, counter: u64)
    requires Refines(w, accepted)
    ensures Accept(w, counter).Some? <==> Admissible(w.highest, accepted, counter)
    ensures Accept(w, counter).Some? ==> Refines(Accept(w, counter).value, accepted + {counter})
  {
    if w.highest.Some? {
      var high := w.highest.value;
      if counter > high {
        AdmitNewer(w, accepted, counter);
      } else {
        var behind: nat := high - counter;
        assert high - behind == counter;
      }
    }
  }

  /** The window and the set after a run of counters. */
  function Feed(counters: seq<u64>): (Window, set<u64>) {
    if counters == [] then (EMPTY, {})
    else
      var n := |counters| - 1;
      var (w, accepted) := Feed(counters[..n]);
      match Accept(w, counters[n])
      case None => (w, accepted)
      case Some(next) => (next, accepted + {counters[n]})
  }

  /**
   For every sequence of counters, the next one is accepted exactly when it was never accepted before and is above
   the highest accepted minus 64; and the bitmap is exactly the recent part of the accepted set.
   */
  lemma {:induction false} WindowRefinesSet(counters: seq<u64>, next: u64)
    ensures var (w, accepted) := Feed(counters);
            && Refines(w, accepted)
            && (Accept(w, next).Some? <==> Admissible(w.highest, accepted, next))
  {
    if counters != [] {
      var n := |counters| - 1;
      WindowRefinesSet(counters[..n], counters[n]);
      AcceptRefines(Feed(counters[..n]).0, Feed(counters[..n]).1, counters[n]);
    }
    AcceptRefines(Feed(counters).0, Feed(counters).1, next);
  }

  // ---- Runs of the decoder ----

  /** The window after a run of datagrams, and the counters of those that were played, in order. */
  function Play(datagrams: seq<Datagram>): (Window, seq<u64>) {
    if datagrams == [] then (EMPTY, [])
    else
      var n := |datagrams| - 1;
      var (w, played) := Play(datagrams[..n]);
      var (next, ok) := Decode(w, datagrams[n]);
      (next, if ok then played + [datagrams[n].counter] else played)
  }

  function Genuine(datagrams: seq<Datagram>): seq<u64> {
    if datagrams == [] then []
    else
      var n := |datagrams| - 1;
      if Trustworthy(datagrams[n]) then Genuine(datagrams[..n]) + [datagrams[n].counter] else Genuine(datagrams[..n])
  }

  /**
   Forged or malformed datagrams change nothing: whatever is mixed into a stream, the window is the one that its
   genuine datagrams alone produce, and no counter is ever played twice.
   */
  lemma {:induction false} ForgeriesAreInvisible(datagrams: seq<Datagram>)
    ensures var (w, played) := Play(datagrams);
            var (v, accepted) := Feed(Genuine(datagrams));
            && w == v
            && (forall c :: c in played <==> c in accepted)
            && (forall i, j :: 0 <= i < j < |played| ==> played[i] != played[j])
  {
    hide Accept, Refines;
    if datagrams != [] {
      var n := |datagrams| - 1;
      ForgeriesAreInvisible(datagrams[..n]);
      var genuine := Genuine(datagrams[..n]);
      assert (genuine + [datagrams[n].counter])[..|genuine|] == genuine;
      WindowRefinesSet(genuine, datagrams[n].counter);
    }
  }
}
