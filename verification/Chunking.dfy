/** Cutting a byte string into pieces of at most a given size, as `chunks` does, and joining pieces again. */
module Chunking {
  import opened Bytes

  /** `bytes.chunks(size)`. */
  function Chunks(bytes: seq<byte>, size: nat): (r: seq<seq<byte>>)
    requires size > 0
    ensures r == [] <==> bytes == []
    decreases |bytes|
  {
    if bytes == [] then []
    else if |bytes| <= size then [bytes]
    else [bytes[..size]] + Chunks(bytes[size..], size)
  }

  function Concat(chunks: seq<seq<byte>>): seq<byte> {
    if chunks == [] then [] else chunks[0] + Concat(chunks[1..])
  }

  predicate Fitting(chunks: seq<seq<byte>>, size: nat) {
    forall i :: 0 <= i < |chunks| ==> 0 < |chunks[i]| <= size
  }

  lemma {:induction false} ChunksFit(bytes: seq<byte>, size: nat)
    requires size > 0
    ensures Fitting(Chunks(bytes, size), size)
    decreases |bytes|
  {
    if |bytes| > size {
      ChunksFit(bytes[size..], size);
    }
  }

  lemma {:induction false} ChunksJoin(bytes: seq<byte>, size: nat)
    requires size > 0
    ensures Concat(Chunks(bytes, size)) == bytes
    decreases |bytes|
  {
    if |bytes| > size {
      ChunksJoin(bytes[size..], size);
      assert Chunks(bytes, size)[1..] == Chunks(bytes[size..], size);
      assert bytes == bytes[..size] + bytes[size..];
    } else if bytes != [] {
      assert Chunks(bytes, size)[1..] == [];
    }
  }

  lemma {:induction false} ConcatAppend(a: seq<seq<byte>>, b: seq<seq<byte>>)
    ensures Concat(a + b) == Concat(a) + Concat(b)
  {
    if a == [] {
      assert a + b == b;
    } else {
      ConcatAppend(a[1..], b);
      assert (a + b)[1..] == a[1..] + b;
      assert a[0] + (Concat(a[1..]) + Concat(b)) == a[0] + Concat(a[1..]) + Concat(b);
    }
  }
}
