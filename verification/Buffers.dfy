/** Progress of a loop that overwrites a buffer from front to back. */
module Buffers {
  import opened Words
  import opened Arith

  // ---- rows of a buffer ----

  /** The row byte i lies in. */
  function Line(i: nat, stride: nat): (y: nat)
    requires stride > 0
  {
    i / stride
  }

  /** Its place in that row. */
  function Column(i: nat, stride: nat): (c: nat)
    requires stride > 0
    ensures c < stride
  {
    i % stride
  }

  lemma PlaceOf(y: nat, c: nat, stride: nat)
    requires c < stride
    ensures 0 <= y * stride + c && Line(y * stride + c, stride) == y && Column(y * stride + c, stride) == c
  {
    assert 0 <= y * stride;
    QuotientIs(y * stride + c, stride, y, c);
  }

  lemma BelowLastRow(i: nat, stride: nat, height: nat)
    requires stride > 0 && height * stride <= i
    ensures Line(i, stride) >= height
  {
    assert i == i / stride * stride + i % stride;
    if i / stride < height { MulMonotone(i / stride + 1, height, stride); }
  }

  // ---- progress ----

  /** Everything below p is final, everything from p on is untouched. */
  ghost predicate Upto(cur: seq<u8>, out: seq<u8>, was: seq<u8>, p: int) {
    && |cur| == |out| == |was|
    && forall i | 0 <= i < |cur| :: cur[i] == if i < p then out[i] else was[i]
  }

  lemma UptoStart(out: seq<u8>, was: seq<u8>)
    requires |out| == |was|
    ensures Upto(was, out, was, 0)
  {}

  /** Only bytes p .. p + n changed between the two states. */
  ghost predicate OnlyWrote(before: seq<u8>, after: seq<u8>, p: int, n: nat) {
    && 0 <= p && p + n <= |before| == |after|
    && after[..p] == before[..p] && after[p + n..] == before[p + n..]
  }

  /** Writing the final bytes p .. p + n moves the frontier past them. */
  lemma UptoWrite(before: seq<u8>, after: seq<u8>, out: seq<u8>, was: seq<u8>, p: nat, n: nat)
    requires Upto(before, out, was, p) && OnlyWrote(before, after, p, n)
    requires after[p..][..n] == out[p..][..n]
    ensures Upto(after, out, was, p + n)
  {
    forall i | 0 <= i < |after| ensures after[i] == if i < p + n then out[i] else was[i] {
      if i < p {
        assert after[i] == after[..p][i];
      } else if i < p + n {
        assert after[i] == after[p..][..n][i - p] == out[p..][..n][i - p];
      } else {
        assert after[i] == after[p + n..][i - (p + n)];
      }
    }
  }

  /** Bytes whose final value is their old one need no write. */
  lemma UptoSkip(cur: seq<u8>, out: seq<u8>, was: seq<u8>, p: nat, q: nat)
    requires Upto(cur, out, was, p) && p <= q
    requires forall i | p <= i < q && i < |was| :: out[i] == was[i]
    ensures Upto(cur, out, was, q)
  {}

  lemma UptoDone(cur: seq<u8>, out: seq<u8>, was: seq<u8>, p: nat)
    requires Upto(cur, out, was, p)
    requires forall i | p <= i < |was| :: out[i] == was[i]
    ensures cur == out
  {}

  /** Bytes at or past the frontier still hold what they held at the start. */
  lemma StillUnwritten(cur: seq<u8>, out: seq<u8>, was: seq<u8>, p: nat, n: nat)
    requires Upto(cur, out, was, p) && p + n <= |cur|
    ensures cur[p..p + n] == was[p..p + n]
  {}
}
