/** A byte stream and the ways a transport may cut it into chunks. */
module Streams {
  import opened Delimiters

  function Concat(chunks: seq<bytes>): bytes {
    if chunks == [] then [] else chunks[0] + Concat(chunks[1..])
  }

  predicate Cuts(chunks: seq<bytes>, stream: bytes) {
    Concat(chunks) == stream
  }

  lemma ConcatCons(a: bytes, chunks: seq<bytes>)
    ensures Concat([a] + chunks) == a + Concat(chunks)
  {
    assert ([a] + chunks)[1..] == chunks;
  }

  lemma ConcatFirst(c: bytes, chunks: seq<bytes>)
    requires chunks != []
    ensures c + Concat(chunks) == (c + chunks[0]) + Concat(chunks[1..])
  {
  }

  lemma TwoChunks(a: bytes, b: bytes)
    ensures Cuts([a, b], a + b)
  {
    assert [a, b][1..] == [b];
    assert Concat([b]) == b + Concat([b][1..]) == b;
  }
}
