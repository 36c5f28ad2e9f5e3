/** The circular buffers of the JTAG UART driver: one slot always stays empty. */
module Rings {
  import opened Bytes

  const LEN := 2048

  datatype Ring = Ring(buf: seq<byte>, inp: nat, out: nat)

  ghost predicate RingOk(q: Ring) {
    |q.buf| == LEN && q.inp < LEN && q.out < LEN
  }

  /** The unread bytes, oldest first. */
  ghost function Contents(q: Ring): (c: seq<byte>)
    requires RingOk(q)
    ensures |c| < LEN
  {
    if q.out <= q.inp then q.buf[q.out..q.inp] else q.buf[q.out..] + q.buf[..q.inp]
  }

  /** How far an index has moved on from `a` to reach `b`. */
  function Distance(a: nat, b: nat): (d: nat)
    requires a < LEN && b < LEN
    ensures d < LEN
  {
    if a <= b then b - a else b + LEN - a
  }

  lemma ContentsLength(q: Ring)
    requires RingOk(q)
    ensures |Contents(q)| == Distance(q.out, q.inp)
  {
  }

  /** The index behind `n` more bytes. */
  function Advance(i: nat, n: nat): (j: nat)
    requires i < LEN && n <= LEN
    ensures j < LEN
  {
    (i + n) % LEN
  }

  /** A full ring holds 2047 bytes. */
  lemma FullRing(q: Ring)
    requires RingOk(q)
    ensures Advance(q.inp, 1) == q.out <==> |Contents(q)| == 2047
    ensures |Contents(q)| <= 2047
  {
  }

  /** Producing: a stretch copied behind the input index and then published is appended to the contents. */
  lemma Publish(q: Ring, n: nat, piece: seq<byte>)
    requires RingOk(q) && |piece| == n && q.inp + n <= LEN && |Contents(q)| + n < LEN
    requires q.buf[q.inp..q.inp + n] == piece
    ensures RingOk(q.(inp := Advance(q.inp, n)))
    ensures Contents(q.(inp := Advance(q.inp, n))) == Contents(q) + piece
  {
    var q' := q.(inp := Advance(q.inp, n));
    var a, b := Contents(q'), Contents(q) + piece;
    if q.inp + n == LEN {
      assert Advance(q.inp, n) == 0;
    } else {
      assert Advance(q.inp, n) == q.inp + n;
    }
    assert forall i :: 0 <= i < n ==> q.buf[q.inp + i] == piece[i];
    assert |a| == |b|;
    assert forall i :: 0 <= i < |a| ==> a[i] == b[i];
  }

  /** Storing a byte into the free part leaves the contents as they are. */
  lemma StoreFree(q: Ring, i: nat, c: byte)
    requires RingOk(q) && q.inp <= i < LEN && |Contents(q)| + (i - q.inp) < LEN - 1
    ensures RingOk(q.(buf := q.buf[i := c])) && Contents(q.(buf := q.buf[i := c])) == Contents(q)
  {
  }

  /** Consuming: the output index moved on over `n` bytes drops the oldest `n`. */
  lemma Consume(q: Ring, n: nat)
    requires RingOk(q) && n <= |Contents(q)| && q.out + n <= LEN
    ensures q.buf[q.out..q.out + n] == Contents(q)[..n]
    ensures RingOk(q.(out := Advance(q.out, n)))
    ensures Contents(q.(out := Advance(q.out, n))) == Contents(q)[n..]
  {
    var q' := q.(out := Advance(q.out, n));
    if q.out + n == LEN {
      assert Advance(q.out, n) == 0;
    } else {
      assert Advance(q.out, n) == q.out + n;
    }
  }
}
