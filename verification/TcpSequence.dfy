/** 32-bit TCP sequence numbers and the comparison the reassembler uses
    (httpdump/tcp_assembly.go and httpdump/receive_window.go). */
module TcpSequence {

  const MODULUS := 0x1_0000_0000
  const HALF := 0x8000_0000
  const MAX_TCP_SEQ := 0xFFFF_FFFF
  const TCP_SEQ_WINDOW := 0x0000_FFFF

  type Uint32 = x: int | 0 <= x < 0x1_0000_0000

  /** The 32-bit sequence number of an unwrapped stream position. */
  function Wrap(x: int): Uint32 {
    x % MODULUS
  }

  /** Go's conversion of a `uint32` to `int32`. */
  function Int32(x: Uint32): int {
    if x < HALF then x else x - MODULUS
  }

  /** Just after the wrap compared with just before it. */
  predicate InFirstWrap(seq1: Uint32, seq2: Uint32) {
    seq1 < TCP_SEQ_WINDOW && seq2 > MAX_TCP_SEQ - TCP_SEQ_WINDOW
  }

  /** Just before the wrap compared with just after it. */
  predicate InSecondWrap(seq1: Uint32, seq2: Uint32) {
    seq2 < TCP_SEQ_WINDOW && seq1 > MAX_TCP_SEQ - TCP_SEQ_WINDOW
  }

  /** The comparison, with `uint32` arithmetic inside the two wrap branches and a
      64-bit `int` result: the conversion there never yields a negative number. */
  function CompareTCPSeq(seq1: Uint32, seq2: Uint32): int {
    if InFirstWrap(seq1, seq2) then
      Wrap(seq1 + MAX_TCP_SEQ - seq2)
    else if InSecondWrap(seq1, seq2) then
      Wrap(seq1 - Wrap(MAX_TCP_SEQ + seq2))
    else
      Int32(Wrap(seq1 - seq2))
  }

  function Sign(x: int): int {
    if x < 0 then -1 else if x == 0 then 0 else 1
  }

  /** The pairs on which the comparison disagrees with the signed difference. */
  predicate Misordered(seq1: Uint32, seq2: Uint32) {
    InSecondWrap(seq1, seq2) || (seq1 == 0 && seq2 == MAX_TCP_SEQ)
  }

  /** Over all pairs of sequence numbers, the comparison has the sign of the signed 32-bit
      difference (section 3.4 of RFC 9293) exactly off the misordered pairs. */
  lemma {:induction false} CompareAgreesExactly(seq1: Uint32, seq2: Uint32)
    ensures Sign(CompareTCPSeq(seq1, seq2)) == Sign(Int32(Wrap(seq1 - seq2))) <==> !Misordered(seq1, seq2)
  {
    if InSecondWrap(seq1, seq2) {
      assert Wrap(seq1 - seq2) == seq1 - seq2 >= HALF;
    } else if InFirstWrap(seq1, seq2) {
      assert Wrap(seq1 - seq2) == seq1 - seq2 + MODULUS < HALF;
    }
  }

  /** Two unwrapped positions less than half the sequence space apart whose numbers the
      comparison orders correctly. */
  predicate Comparable(x: int, y: int) {
    -HALF < x - y < HALF && !Misordered(Wrap(x), Wrap(y))
  }

  /** Less than half the space apart, the comparison of the wrapped numbers orders two
      positions as their unwrapped values exactly when the pair is not misordered. */
  lemma {:induction false} OrderOfPositions(x: int, y: int)
    requires -HALF < x - y < HALF
    ensures Comparable(x, y) <==> Sign(CompareTCPSeq(Wrap(x), Wrap(y))) == Sign(x - y)
  {
    CompareAgreesExactly(Wrap(x), Wrap(y));
    WrapOfDifference(x, y);
  }

  lemma {:induction false} WrapOfDifference(x: int, y: int)
    ensures Wrap(Wrap(x) - Wrap(y)) == Wrap(x - y)
    ensures -HALF <= x - y < HALF ==> Int32(Wrap(x - y)) == x - y
  {
  }

  lemma {:induction false} WrapOfSum(x: int, n: int)
    ensures Wrap(Wrap(x) + n) == Wrap(x + n)
  {
  }

  /** On any set of positions spanning less than half the space the comparison is the strict
      total order of the unwrapped positions if and only if no pair is misordered. */
  lemma {:induction false} StrictTotalOrderExactly(positions: set<int>)
    requires forall x, y :: x in positions && y in positions ==> x - y < HALF
    ensures (forall x, y :: x in positions && y in positions ==> !Misordered(Wrap(x), Wrap(y)))
       <==> (forall x, y :: x in positions && y in positions ==>
               Sign(CompareTCPSeq(Wrap(x), Wrap(y))) == Sign(x - y))
  {
    forall x, y | x in positions && y in positions
      ensures !Misordered(Wrap(x), Wrap(y)) <==> Sign(CompareTCPSeq(Wrap(x), Wrap(y))) == Sign(x - y)
    {
      assert x - y < HALF && y - x < HALF;
      OrderOfPositions(x, y);
    }
  }

  /** No pair of one lap of the sequence space, less than half a lap apart, is misordered. */
  lemma {:induction false} OneLapIsComparable(lap: int, x: int, y: int)
    requires lap * MODULUS <= x < (lap + 1) * MODULUS
    requires lap * MODULUS <= y < (lap + 1) * MODULUS
    requires -HALF < x - y < HALF
    ensures Comparable(x, y) && Wrap(x) == x - lap * MODULUS
  {
    assert Wrap(x) == x - lap * MODULUS;
    assert Wrap(y) == y - lap * MODULUS;
  }

  /** The wrap at work: 16 bytes before it compares as later than 16 bytes after it, and the
      first number after it compares as equal to the last one before it. */
  lemma {:induction false} WrapIsMisordered()
    ensures CompareTCPSeq(0xFFFF_FFF0, 0x10) > 0
    ensures CompareTCPSeq(0, MAX_TCP_SEQ) == 0
  {
  }
}
