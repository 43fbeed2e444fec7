/** Vocabulary shared by the whole model: machine integers, and the weighing of routes. */
module Common {
  type U8 = x: int | 0 <= x < 0x100
  type U16 = x: int | 0 <= x < 0x1_0000

  /** The metric of an unreachable destination: all ones in an unsigned short. */
  const INFINITY: U16 := 0xFFFF

  datatype Option<+T> = None | Some(value: T)

  function Min(a: int, b: int): int { if a <= b then a else b }

  function Max(a: int, b: int): int { if a <= b then b else a }

  /** Division of C: towards zero. */
  function Quotient(a: int, b: int): int
    requires b > 0
  {
    if a >= 0 then a / b else -(-a / b)
  }
}

/** Sequence numbers: 16 bits on the wire, compared on a circle. */
module Seqno {
  import opened Common

  /** The wire form of a sequence number that is incremented without bound. */
  function Wire(n: int): U16 { n % 0x1_0000 }

  /** Positive when `s1` is the more recent: bit 15 of `s2 - s1` is set. */
  function Compare(s1: U16, s2: U16): int
  {
    if s1 == s2 then 0
    else if (s2 - s1) % 0x1_0000 >= 0x8000 then 1
    else -1
  }

  function Sign(n: int): int { if n == 0 then 0 else if n > 0 then 1 else -1 }

  /** All numbers that are fewer than `width` apart compare as the unbounded integers do. */
  ghost predicate AgreesWithin(width: int) {
    forall n1: int, n2: int :: -width < n1 - n2 < width ==> Compare(Wire(n1), Wire(n2)) == Sign(n1 - n2)
  }

  lemma CompareInWindow(n1: int, n2: int)
    requires -0x8000 < n1 - n2 <= 0x8000
    ensures Compare(Wire(n1), Wire(n2)) == Sign(n1 - n2)
    ensures Wire(n1) == Wire(n2) <==> n1 == n2
  {
  }

  /** The comparison is the integer order exactly on windows of at most 2^15 numbers: at distance 2^15
      each number counts as more recent than the other. */
  lemma WindowIsHalfTheCircle(width: int)
    ensures AgreesWithin(width) <==> width <= 0x8000
  {
    if width <= 0x8000 {
      forall n1: int, n2: int | -width < n1 - n2 < width
        ensures Compare(Wire(n1), Wire(n2)) == Sign(n1 - n2)
      {
        CompareInWindow(n1, n2);
      }
    } else {
      assert -width < 0 - 0x8000 < width;
      assert Compare(Wire(0), Wire(0x8000)) == 1;
      assert !AgreesWithin(width);
    }
  }
}
