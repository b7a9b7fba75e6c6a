/** TCP sequence numbers: 32-bit serial arithmetic (RFC 1982, section 3.2), and the positions it stands for. */
module SerialNumber {
  const TWO31: int := 0x8000_0000
  const TWO32: int := 0x1_0000_0000

  /** How sequence numbers are computed: in 32 bits, as the program does, or exactly. */
  datatype Arith = Wrapped | Exact

  function Norm(w: Arith, x: int): int { if w.Wrapped? then x % TWO32 else x }

  /** before(a, b): (s32)(a - b) < 0. */
  predicate Lt(w: Arith, a: int, b: int) { if w.Wrapped? then (a - b) % TWO32 >= TWO31 else a < b }

  predicate Le(w: Arith, a: int, b: int) { Lt(w, a, b) || a == b }

  predicate U32(x: int) { 0 <= x < TWO32 }

  /** Both positions in a window narrower than 2^31. */
  predicate Near(a: int, b: int) { -TWO31 < a - b < TWO31 }

  lemma Split(x: int)
    ensures x == TWO32 * (x / TWO32) + x % TWO32 && U32(x % TWO32)
  {
  }

  lemma NormU32(x: int)
    ensures U32(Norm(Wrapped, x))
  {
    Split(x);
  }

  lemma ModSmall(x: int, k: int)
    requires U32(x + TWO32 * k)
    ensures x % TWO32 == x + TWO32 * k
  {
    Split(x);
    var d := x / TWO32 + k;
    assert -TWO32 < TWO32 * d < TWO32;
    assert d == 0;
  }

  /** In such a window the 32-bit comparison is the comparison of the positions. */
  lemma WindowOrder(a: int, b: int)
    requires Near(a, b)
    ensures Lt(Wrapped, Norm(Wrapped, a), Norm(Wrapped, b)) <==> a < b
    ensures Norm(Wrapped, a) == Norm(Wrapped, b) <==> a == b
  {
    Split(a);
    Split(b);
    var k := a / TWO32 - b / TWO32;
    var d := a % TWO32 - b % TWO32;
    assert d == a - b - TWO32 * k;
    if a < b {
      ModSmall(d, k + 1);
    } else {
      ModSmall(d, k);
    }
  }

  /** Numbers that are not ordered either way are equal, so the descent stops only at a retransmission. */
  lemma Comparable(a: int, b: int)
    requires U32(a) && U32(b)
    ensures !Lt(Wrapped, a, b) && !Lt(Wrapped, b, a) <==> a == b
  {
    if a < b {
      ModSmall(a - b, 1);
    } else if b < a {
      ModSmall(b - a, 1);
    }
  }

  /** The unsigned comparison agrees with the order of the positions exactly if the two have not wrapped apart. */
  lemma RawOrder(a: int, b: int)
    requires Near(a, b)
    ensures (Norm(Wrapped, a) <= Norm(Wrapped, b) <==> a <= b) <==> a / TWO32 == b / TWO32
  {
    Split(a);
    Split(b);
  }
}
