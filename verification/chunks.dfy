/**
 The request body as the upload handler sees it: a finite sequence of byte
 chunks, in the order the stream reader delivered them. `TotalSize` is the
 running byte count the handler keeps and `Concat` is the single buffer it
 builds from the chunks once reading has finished.
 */
module Chunks {

  newtype byte = b: int | 0 <= b < 256

  /** The upload cap: 100 MiB. */
  const MaxBodyBytes: nat := 100 * 1024 * 1024

  /** Sum of the chunk lengths, accumulated from the first chunk to the last. */
  function TotalSize(chunks: seq<seq<byte>>): (total: nat)
    ensures forall k :: 0 <= k < |chunks| ==> |chunks[k]| <= total
  {
    if chunks == [] then 0
    else TotalSize(chunks[..|chunks| - 1]) + |chunks[|chunks| - 1]|
  }

  /** The chunks joined end to end, in arrival order. */
  function Concat(chunks: seq<seq<byte>>): (buffer: seq<byte>)
    ensures |buffer| == TotalSize(chunks)
  {
    if chunks == [] then []
    else Concat(chunks[..|chunks| - 1]) + chunks[|chunks| - 1]
  }

  /** No prefix of at most n chunks has a running total above the cap. */
  predicate WithinCapUpTo(chunks: seq<seq<byte>>, n: nat)
    requires n <= |chunks|
  {
    forall k :: 0 <= k <= n ==> TotalSize(chunks[..k]) <= MaxBodyBytes
  }

  /** Reading one more chunk appends it and adds its length to the running total. */
  lemma ReadOneMore(chunks: seq<seq<byte>>, i: nat)
    requires i < |chunks|
    ensures chunks[..i + 1] == chunks[..i] + [chunks[i]]
    ensures TotalSize(chunks[..i + 1]) == TotalSize(chunks[..i]) + |chunks[i]|
  {
  }

  /** The cap still holds after one more chunk whose prefix is within it. */
  lemma WithinCapExtend(chunks: seq<seq<byte>>, i: nat)
    requires i < |chunks| && WithinCapUpTo(chunks, i)
    requires TotalSize(chunks[..i + 1]) <= MaxBodyBytes
    ensures WithinCapUpTo(chunks, i + 1)
  {
  }

  /** Joining distributes over appending chunk lists. */
  lemma {:induction false} ConcatAppend(a: seq<seq<byte>>, b: seq<seq<byte>>)
    ensures Concat(a + b) == Concat(a) + Concat(b)
  {
    if b == [] {
      assert a + b == a;
    } else {
      var front, last := b[..|b| - 1], b[|b| - 1];
      assert (a + b)[..|a + b| - 1] == a + front;
      assert (a + b)[|a + b| - 1] == last;
      ConcatAppend(a, front);
      calc {
        Concat(a + b);
        Concat(a + front) + last;
        Concat(a) + Concat(front) + last;
        Concat(a) + (Concat(front) + last);
        Concat(a) + Concat(b);
      }
    }
  }

  /**
   Order preservation: chunk j occupies exactly the bytes of the joined
   buffer from the size of the chunks before it up to that size plus its
   own length.
   */
  lemma ConcatChunkAt(chunks: seq<seq<byte>>, j: nat)
    requires j < |chunks|
    ensures TotalSize(chunks[..j]) + |chunks[j]| <= |Concat(chunks)|
    ensures Concat(chunks)[TotalSize(chunks[..j])..TotalSize(chunks[..j]) + |chunks[j]|] == chunks[j]
  {
    var before, rest := chunks[..j], chunks[j + 1..];
    assert chunks == before + [chunks[j]] + rest;
    ConcatAppend(before + [chunks[j]], rest);
    ConcatAppend(before, [chunks[j]]);
    assert [chunks[j]][..0] == [];
    assert Concat([chunks[j]]) == chunks[j];
  }

  /** The running total never shrinks as more chunks are read. */
  lemma {:induction false} PrefixSizeMonotone(chunks: seq<seq<byte>>, j: nat, k: nat)
    requires j <= k <= |chunks|
    ensures TotalSize(chunks[..j]) <= TotalSize(chunks[..k])
  {
    if j < k {
      assert chunks[..k][..k - 1] == chunks[..k - 1];
      PrefixSizeMonotone(chunks, j, k - 1);
    }
  }

  /**
   Some prefix of the body exceeds a limit exactly when the whole body does:
   chunk lengths are never negative.
   */
  lemma OverLimitIffSomePrefix(chunks: seq<seq<byte>>, limit: nat)
    ensures TotalSize(chunks) > limit
        <==> exists k :: 0 <= k <= |chunks| && TotalSize(chunks[..k]) > limit
  {
    assert chunks[..|chunks|] == chunks;
    if k :| 0 <= k <= |chunks| && TotalSize(chunks[..k]) > limit {
      PrefixSizeMonotone(chunks, k, |chunks|);
    }
  }
}
