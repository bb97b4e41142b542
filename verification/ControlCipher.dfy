/**
 The encrypted CarPlay control channel, one direction: the sealing cipher with its counter nonce, the opening cipher
 that a failed authentication poisons, and the cutting of a message into sealed pieces. Authenticated encryption is
 ideal: a box opens only under the key, nonce and associated data it was sealed with.
 */
module ControlCipher {
  import opened Bytes
  import opened Chunking

  const PIECE: nat := 16384
  const TAG: nat := 16

  /** What stands where ciphertext and tag are expected: a sealed box, or bytes that never came out of `seal`. */
  datatype Box = Sealed(key: seq<byte>, nonce: seq<byte>, aad: seq<byte>, plain: seq<byte>) | Junk(size: nat)

  function BoxSize(box: Box): nat {
    if box.Sealed? then |box.plain| + TAG else box.size
  }

  /** A frame as it arrives: two header bytes and a box, or fewer than two bytes. */
  datatype Frame = Whole(low: byte, high: byte, box: Box) | Stub

  function Open(key: seq<byte>, nonce: seq<byte>, aad: seq<byte>, box: Box): Option<seq<byte>> {
    if box.Sealed? && box.key == key && box.nonce == nonce && box.aad == aad then Some(box.plain) else None
  }

  datatype Cipher = Cipher(key: seq<byte>, counter: u64, failed: bool)

  function Fresh(key: seq<byte>): Cipher {
    Cipher(key, 0, false)
  }

  /** The 96-bit nonce: four zero bytes and the counter, least significant byte first. */
  function NonceOf(counter: u64): seq<byte> {
    [0, 0, 0, 0] + LittleEndian(counter, 8)
  }

  function Nonce(c: Cipher): Result<seq<byte>> {
    if c.failed || c.counter == U64_MAX then Err(State) else Ok(NonceOf(c.counter))
  }

  lemma NonceInjective(a: u64, b: u64)
    requires NonceOf(a) == NonceOf(b)
    ensures a == b
  {
    Spans();
    assert NonceOf(a)[4..] == LittleEndian(a, 8) && NonceOf(b)[4..] == LittleEndian(b, 8);
    LittleRoundTrip(a, 8);
    LittleRoundTrip(b, 8);
  }

  function Encrypt(c: Cipher, plain: seq<byte>): (r: (Cipher, Result<Frame>))
    ensures r.1.Err? ==> r.0 == c
  {
    if plain == [] || |plain| > PIECE then (c, Err(Bounds))
    else match Nonce(c)
      case Err(error) => (c, Err(error))
      case Ok(nonce) =>
        var (low, high) := (|plain| % 256, |plain| / 256);
        (c.(counter := c.counter + 1), Ok(Whole(low, high, Sealed(c.key, nonce, [low, high], plain))))
  }

  /** The direction counts as failed until the frame has been opened. */
  function Decrypt(c: Cipher, f: Frame): (Cipher, Result<seq<byte>>) {
    match Nonce(c)
    case Err(error) => (c, Err(error))
    case Ok(nonce) =>
      var poisoned := c.(failed := true);
      if f.Stub? || BoxSize(f.box) < TAG then (poisoned, Err(Bounds))
      else
        var size := f.low + 256 * f.high;
        if size > PIECE || BoxSize(f.box) != size + TAG then (poisoned, Err(Bounds))
        else match Open(c.key, nonce, [f.low, f.high], f.box)
          case None => (poisoned, Err(Rejected))
          case Some(plain) => (c.(counter := c.counter + 1), Ok(plain))
  }

  class ControlCipher {
    const key: seq<byte>
    var counter: u64
    var failed: bool

    constructor (key: seq<byte>)
      ensures View() == Fresh(key)
    {
      this.key, counter, failed := key, 0, false;
    }

    ghost function View(): Cipher
      reads this
    {
      Cipher(key, counter, failed)
    }

    method Seal(plain: seq<byte>) returns (r: Result<Frame>)
      modifies this`counter
      ensures (View(), r) == Encrypt(old(View()), plain)
    {
      if plain == [] || |plain| > PIECE {
        return Err(Bounds);
      }
      if failed || counter == U64_MAX {
        return Err(State);
      }
      var low, high := |plain| % 256, |plain| / 256;
      r := Ok(Whole(low, high, Sealed(key, NonceOf(counter), [low, high], plain)));
      counter := counter + 1;
    }

    method Unseal(f: Frame) returns (r: Result<seq<byte>>)
      modifies this
      ensures (View(), r) == Decrypt(old(View()), f)
    {
      if failed || counter == U64_MAX {
        return Err(State);
      }
      failed := true;
      if f.Stub? || BoxSize(f.box) < TAG {
        return Err(Bounds);
      }
      var size := f.low + 256 * f.high;
      if size > PIECE || BoxSize(f.box) != size + TAG {
        return Err(Bounds);
      }
      var plain := Open(key, NonceOf(counter), [f.low, f.high], f.box);
      if plain.None? {
        return Err(Rejected);
      }
      counter := counter + 1;
      failed := false;
      return Ok(plain.value);
    }

    /** `Outgoing::send`: every piece is sealed and written before the next; frames is what was written. */
    method Send(bytes: seq<byte>) returns (frames: seq<Frame>, r: Result<()>)
      modifies this`counter
      ensures View() == SealAll(old(View()), Chunks(bytes, PIECE)).0
      ensures frames == SealAll(old(View()), Chunks(bytes, PIECE)).1
      ensures r.Ok? <==> |frames| == |Chunks(bytes, PIECE)|
    {
      hide Encrypt, NonceOf;
      var chunks := Chunks(bytes, PIECE);
      frames := [];
      for i := 0 to |chunks|
        invariant (View(), frames) == (SealAll(old(View()), chunks[..i]).0, SealAll(old(View()), chunks[..i]).1)
        invariant |frames| == i
      {
        assert chunks[..i + 1][..i] == chunks[..i];
        var f := Seal(chunks[i]);
        if f.Err? {
          ChunksFit(bytes, PIECE);
          StuckSealsNothing(old(View()), chunks, i);
          return frames, Err(f.error);
        }
        frames := frames + [f.value];
      }
      assert chunks[..|chunks|] == chunks;
      return frames, Ok(());
    }
  }

  // ---- Runs ----

  /** The plaintexts sealed one after the other: the cipher, the frames, and the plaintexts that were sealed. */
  function SealAll(c: Cipher, plains: seq<seq<byte>>): (Cipher, seq<Frame>, seq<seq<byte>>) {
    if plains == [] then (c, [], [])
    else
      var n := |plains| - 1;
      var (c', frames, done) := SealAll(c, plains[..n]);
      match Encrypt(c', plains[n])
      case (c'', Err(_)) => (c'', frames, done)
      case (c'', Ok(f)) => (c'', frames + [f], done + [plains[n]])
  }

  /** The frames opened one after the other: the cipher and the plaintexts that came out. */
  function OpenAll(c: Cipher, wire: seq<Frame>): (Cipher, seq<seq<byte>>) {
    if wire == [] then (c, [])
    else
      var n := |wire| - 1;
      var (c', plains) := OpenAll(c, wire[..n]);
      match Decrypt(c', wire[n])
      case (c'', Err(_)) => (c'', plains)
      case (c'', Ok(plain)) => (c'', plains + [plain])
  }

  /** A cipher that refuses one piece of a legal size refuses all that follow. */
  lemma {:induction false} StuckSealsNothing(c: Cipher, plains: seq<seq<byte>>, i: nat)
    requires i < |plains| && Fitting(plains, PIECE)
    requires Encrypt(SealAll(c, plains[..i]).0, plains[i]).1.Err?
    ensures SealAll(c, plains) == SealAll(c, plains[..i])
    decreases |plains|
  {
    var n := |plains| - 1;
    assert plains[..n + 1] == plains;
    if i < n {
      assert plains[..n][..i] == plains[..i];
      StuckSealsNothing(c, plains[..n], i);
    }
  }

  /** Frame i is plaintext i sealed under the counter value i. */
  lemma {:induction false} SealedFrames(key: seq<byte>, plains: seq<seq<byte>>)
    ensures var (c, frames, done) := SealAll(Fresh(key), plains);
            && |frames| == |done| == c.counter
            && c.key == key && !c.failed
            && forall i :: 0 <= i < |frames| ==>
                 && frames[i].Whole?
                 && frames[i].box == Sealed(key, NonceOf(i), [frames[i].low, frames[i].high], done[i])
                 && frames[i].low + 256 * frames[i].high == |done[i]| <= PIECE
  {
    hide NonceOf;
    if plains != [] {
      SealedFrames(key, plains[..|plains| - 1]);
    }
  }

  /** No nonce is used for two frames. */
  lemma NoncesAreUnique(key: seq<byte>, plains: seq<seq<byte>>, i: nat, j: nat)
    requires i < j < |SealAll(Fresh(key), plains).1|
    ensures var frames := SealAll(Fresh(key), plains).1;
            frames[i].Whole? && frames[j].Whole? && frames[i].box != frames[j].box
            && frames[i].box.Sealed? && frames[j].box.Sealed? && frames[i].box.nonce != frames[j].box.nonce
  {
    hide NonceOf, SealAll;
    SealedFrames(key, plains);
    if NonceOf(i) == NonceOf(j) {
      NonceInjective(i, j);
    }
  }

  /**
   What the network may do to frames: drop, repeat, reorder, alter and make up anything, as long as a box sealed under
   the key is one the sender made.
   */
  ghost predicate Network(key: seq<byte>, sent: seq<Frame>, wire: seq<Frame>) {
    forall i :: 0 <= i < |wire| && wire[i].Whole? && wire[i].box.Sealed? && wire[i].box.key == key ==>
      exists j :: 0 <= j < |sent| && sent[j].Whole? && sent[j].box == wire[i].box
  }

  /**
   Under any such interference the plaintexts that come out are, in order, a prefix of those that were sealed; the
   counter is how many came out.
   */
  lemma {:induction false} PrefixDelivered(key: seq<byte>, plains: seq<seq<byte>>, wire: seq<Frame>)
    requires Network(key, SealAll(Fresh(key), plains).1, wire)
    ensures OpenAll(Fresh(key), wire).1 <= SealAll(Fresh(key), plains).2
    ensures OpenAll(Fresh(key), wire).0.counter == |OpenAll(Fresh(key), wire).1|
    ensures OpenAll(Fresh(key), wire).0.key == key
  {
    hide NonceOf, SealAll;
    if wire != [] {
      var n := |wire| - 1;
      var (_, frames, done) := SealAll(Fresh(key), plains);
      PrefixDelivered(key, plains, wire[..n]);
      SealedFrames(key, plains);
      var (c, out) := OpenAll(Fresh(key), wire[..n]);
      var (_, r) := Decrypt(c, wire[n]);
      if r.Ok? {
        var j :| 0 <= j < |frames| && frames[j].Whole? && frames[j].box == wire[n].box;
        assert NonceOf(j) == NonceOf(c.counter);
        NonceInjective(j, c.counter);
        assert r.value == done[|out|];
      }
    }
  }

  /** After the first frame that does not open, nothing more comes out. */
  lemma {:induction false} NothingAfterFailure(c: Cipher, wire: seq<Frame>, i: nat)
    requires i < |wire| && Decrypt(OpenAll(c, wire[..i]).0, wire[i]).1.Err?
    ensures OpenAll(c, wire).1 == OpenAll(c, wire[..i]).1
    ensures Nonce(OpenAll(c, wire).0).Err?
    decreases |wire|
  {
    var n := |wire| - 1;
    assert wire[..n + 1] == wire;
    if i < n {
      assert wire[..n][..i] == wire[..i];
      NothingAfterFailure(c, wire[..n], i);
    }
  }

  /** And without interference everything comes out. */
  lemma {:induction false} UndisturbedDelivery(key: seq<byte>, plains: seq<seq<byte>>)
    ensures var (c, frames, done) := SealAll(Fresh(key), plains);
            OpenAll(Fresh(key), frames) == (c, done)
  {
    hide NonceOf;
    if plains != [] {
      var n := |plains| - 1;
      UndisturbedDelivery(key, plains[..n]);
      SealedFrames(key, plains[..n]);
      var (_, frames, _) := SealAll(Fresh(key), plains);
      var (_, before, _) := SealAll(Fresh(key), plains[..n]);
      if frames != before {
        assert frames[..|frames| - 1] == before;
      }
    }
  }

  // ---- Messages over the cipher ----

  function AllPieces(messages: seq<seq<byte>>): seq<seq<byte>> {
    if messages == [] then [] else Chunks(messages[0], PIECE) + AllPieces(messages[1..])
  }

  lemma {:induction false} PiecesJoin(messages: seq<seq<byte>>)
    ensures Concat(AllPieces(messages)) == Concat(messages)
  {
    if messages != [] {
      PiecesJoin(messages[1..]);
      ChunksJoin(messages[0], PIECE);
      ConcatAppend(Chunks(messages[0], PIECE), AllPieces(messages[1..]));
    }
  }

  lemma {:induction false} PiecesFit(messages: seq<seq<byte>>)
    ensures Fitting(AllPieces(messages), PIECE)
  {
    if messages != [] {
      PiecesFit(messages[1..]);
      ChunksFit(messages[0], PIECE);
    }
  }

  /** What is sealed of a list of legal pieces is the front of the list. */
  lemma {:induction false} SealsAFront(c: Cipher, plains: seq<seq<byte>>)
    requires Fitting(plains, PIECE)
    ensures SealAll(c, plains).2 <= plains
    ensures SealAll(c, plains).2 == plains || Nonce(SealAll(c, plains).0).Err?
  {
    hide NonceOf;
    if plains != [] {
      var n := |plains| - 1;
      SealsAFront(c, plains[..n]);
      assert plains == plains[..n] + [plains[n]];
    }
  }

  lemma ConcatPrefix(a: seq<seq<byte>>, b: seq<seq<byte>>)
    requires a <= b
    ensures Concat(a) <= Concat(b)
  {
    ConcatAppend(a, b[|a|..]);
    assert b == a + b[|a|..];
  }

  /** The bytes the receiver's parser is fed are, under any interference, a prefix of the bytes sent. */
  lemma BytesArePrefix(key: seq<byte>, messages: seq<seq<byte>>, wire: seq<Frame>)
    requires Network(key, SealAll(Fresh(key), AllPieces(messages)).1, wire)
    ensures Concat(OpenAll(Fresh(key), wire).1) <= Concat(messages)
  {
    hide SealAll, OpenAll, Network, AllPieces, Concat, Fitting;
    var pieces := AllPieces(messages);
    PrefixDelivered(key, pieces, wire);
    PiecesFit(messages);
    SealsAFront(Fresh(key), pieces);
    ConcatPrefix(OpenAll(Fresh(key), wire).1, pieces);
    PiecesJoin(messages);
  }
}
