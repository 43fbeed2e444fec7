/** Network prefixes: the abstract order of bit strings, and the byte functions of util.c and util.h that
    are meant to compute it. */
module Prefix {
  import opened Common

  /** A prefix is the string of bits that it fixes. */
  type Bits = seq<bool>

  datatype Status = Equals | Disjoint | MoreSpecific | LessSpecific

  /** How the set of addresses under `a` lies to the set of addresses under `b`. */
  function Compare(a: Bits, b: Bits): Status {
    if a == b then Equals
    else if a <= b then LessSpecific
    else if b <= a then MoreSpecific
    else Disjoint
  }

  // ---------------------------------------------------------------- addresses

  type Address = a: seq<U8> | |a| == 16 witness [0, 0, 0, 0, 0, 0, 0, 0, 0, 0, 0, 0, 0, 0, 0, 0]

  const ZEROES: Address := [0, 0, 0, 0, 0, 0, 0, 0, 0, 0, 0, 0, 0, 0, 0, 0]
  const V4PREFIX: seq<U8> := [0, 0, 0, 0, 0, 0, 0, 0, 0, 0, 0xFF, 0xFF]

  predicate V4Mapped(a: Address) { a[..12] == V4PREFIX }

  function Pow2(n: nat): (p: nat)
    requires n <= 8
    ensures p > 0
  {
    [1, 2, 4, 8, 16, 32, 64, 128, 256][n]
  }

  /** Bit `i` of a byte, counting from the most significant. */
  predicate BitOf(b: U8, i: nat)
    requires i < 8
  {
    b / Pow2(7 - i) % 2 == 1
  }

  /** The byte with all but its `n` most significant bits cleared: masking with 0xFF << (8 - n). */
  function KeepTop(b: U8, n: nat): U8
    requires n <= 8
  {
    b / Pow2(8 - n) * Pow2(8 - n)
  }

  predicate Bit(a: Address, i: nat)
    requires i < 128
  {
    BitOf(a[i / 8], i % 8)
  }

  function BitsOf(a: Address, plen: nat): Bits
    requires plen <= 128
  {
    seq(plen, i requires 0 <= i < plen => Bit(a, i))
  }

  /** prefix_cmp. Where the code reads byte 16 of an address it reads past the end; `past1` and `past2`
      stand for what it finds there. */
  function PrefixCmp(p1: Address, plen1: nat, past1: U8, p2: Address, plen2: nat, past2: U8): Status
    requires plen1 <= 128 && plen2 <= 128
  {
    var plen := Min(plen1, plen2);
    var i := plen / 8 + 1;
    var b1 := if i < 16 then p1[i] else past1;
    var b2 := if i < 16 then p2[i] else past2;
    if V4Mapped(p1) != V4Mapped(p2) then Disjoint
    else if p1[..plen / 8] != p2[..plen / 8] then Disjoint
    else if plen % 8 != 0 && KeepTop(b1, 8 - plen % 8) != KeepTop(b2, 8 - plen % 8) then Disjoint
    else if plen1 < plen2 then LessSpecific
    else if plen1 > plen2 then MoreSpecific
    else Equals
  }

  /** in_prefix */
  predicate InPrefix(address: Address, prefix: Address, plen0: U8) {
    var plen := Min(plen0, 128);
    && address[..plen / 8] == prefix[..plen / 8]
    && (plen % 8 != 0 ==> KeepTop(address[plen / 8], plen % 8) == KeepTop(prefix[plen / 8], plen % 8))
  }

  /** normalize_prefix */
  function Normalize(prefix: Address, plen: U8): Address
  {
    if plen >= 128 then prefix
    else if plen % 8 == 0 then prefix[..plen / 8] + ZEROES[plen / 8..]
    else prefix[..plen / 8] + [KeepTop(prefix[plen / 8], plen % 8)] + ZEROES[plen / 8 + 1..]
  }

  // ---------------------------------------------------------------- bytes and bits

  /** Two bytes agree on their `n` most significant bits exactly when the mask makes them equal. */
  lemma {:induction false} TopBits(a: U8, b: U8, n: nat)
    requires n <= 8
    ensures KeepTop(a, n) == KeepTop(b, n) <==> forall i | 0 <= i < n :: BitOf(a, i) == BitOf(b, i)
    ensures KeepTop(a, n) == KeepTop(b, n) <==> a / Pow2(8 - n) == b / Pow2(8 - n)
  {
    var w := Pow2(8 - n);
    Cancel(a / w, b / w, w);
    if n > 0 {
      TopBits(a, b, n - 1);
      Halve(a, w);
      Halve(b, w);
      assert Pow2(8 - (n - 1)) == 2 * w;
      assert BitOf(a, n - 1) <==> a / w % 2 == 1;
      assert BitOf(b, n - 1) <==> b / w % 2 == 1;
    }
  }

  lemma Halve(a: U8, w: int)
    requires w in {1, 2, 4, 8, 16, 32, 64, 128}
    ensures a / w == 2 * (a / (2 * w)) + a / w % 2
  {
    if w == 1 {
    } else {
      QuotientOfQuotient(a, w);
    }
  }

  lemma QuotientOfQuotient(a: U8, w: int)
    requires w in {2, 4, 8, 16, 32, 64, 128}
    ensures a / w / 2 == a / (2 * w)
  {
  }

  lemma Cancel(x: int, y: int, w: int)
    requires w > 0
    ensures x * w == y * w <==> x == y
  {
  }

  /** Whole bytes agree exactly when all their bits do. */
  lemma BytesAndBits(a: Address, b: Address, n: nat)
    requires n <= 16
    ensures a[..n] == b[..n] <==> forall i | 0 <= i < 8 * n :: Bit(a, i) == Bit(b, i)
  {
    if forall i | 0 <= i < 8 * n :: Bit(a, i) == Bit(b, i) {
      forall k | 0 <= k < n ensures a[k] == b[k] { ByteFromBits(a, b, k); }
    }
    hide BitOf;
    forall i | 0 <= i < 8 * n && a[..n] == b[..n] ensures Bit(a, i) == Bit(b, i) {
      assert a[..n][i / 8] == a[i / 8] && b[..n][i / 8] == b[i / 8];
    }
  }

  lemma ByteFromBits(a: Address, b: Address, k: nat)
    requires k < 16 && forall i | 8 * k <= i < 8 * k + 8 :: Bit(a, i) == Bit(b, i)
    ensures a[k] == b[k]
  {
    hide BitOf, Bit;
    forall i | 0 <= i < 8 ensures BitOf(a[k], i) == BitOf(b[k], i) {
      BitAt(a, k, i);
      BitAt(b, k, i);
    }
    SameByte(a[k], b[k]);
  }

  lemma BitAt(a: Address, k: nat, i: nat)
    requires k < 16 && i < 8
    ensures Bit(a, 8 * k + i) == BitOf(a[k], i)
  {
    hide BitOf;
    assert (8 * k + i) / 8 == k && (8 * k + i) % 8 == i;
  }

  lemma SameByte(a: U8, b: U8)
    requires forall i | 0 <= i < 8 :: BitOf(a, i) == BitOf(b, i)
    ensures a == b
  {
    hide BitOf, KeepTop;
    TopBits(a, b, 8);
  }

  lemma BitsAgree(a: Address, b: Address, plen: nat)
    requires plen <= 128
    ensures BitsOf(a, plen) == BitsOf(b, plen) <==> forall i | 0 <= i < plen :: Bit(a, i) == Bit(b, i)
  {
    if BitsOf(a, plen) == BitsOf(b, plen) {
      forall i | 0 <= i < plen ensures Bit(a, i) == Bit(b, i) {
        assert BitsOf(a, plen)[i] == BitsOf(b, plen)[i];
      }
    }
  }

  /** The bits of the last, partial byte. */
  lemma LastByte(a: Address, b: Address, plen: nat)
    requires plen <= 128 && plen % 8 != 0
    ensures KeepTop(a[plen / 8], plen % 8) == KeepTop(b[plen / 8], plen % 8)
            <==> forall i | plen / 8 * 8 <= i < plen :: Bit(a, i) == Bit(b, i)
  {
    var n := plen / 8;
    TopBits(a[n], b[n], plen % 8);
    if forall i | 0 <= i < plen % 8 :: BitOf(a[n], i) == BitOf(b[n], i) {
      forall i | 8 * n <= i < plen ensures Bit(a, i) == Bit(b, i) {
        assert i / 8 == n && i % 8 == i - 8 * n;
        assert BitOf(a[n], i - 8 * n) == BitOf(b[n], i - 8 * n);
      }
    } else {
      var i :| 0 <= i < plen % 8 && BitOf(a[n], i) != BitOf(b[n], i);
      assert (8 * n + i) / 8 == n && (8 * n + i) % 8 == i;
      assert Bit(a, 8 * n + i) != Bit(b, 8 * n + i);
    }
  }

  /** The bits below `plen`: whole bytes, and the top of one more. */
  lemma PartialBytes(a: Address, b: Address, plen: nat)
    requires plen <= 128
    ensures BitsOf(a, plen) == BitsOf(b, plen) <==>
            && a[..plen / 8] == b[..plen / 8]
            && (plen % 8 != 0 ==> KeepTop(a[plen / 8], plen % 8) == KeepTop(b[plen / 8], plen % 8))
  {
    BitsAgree(a, b, plen);
    BytesAndBits(a, b, plen / 8);
    if plen % 8 != 0 {
      LastByte(a, b, plen);
    }
  }

  // ---------------------------------------------------------------- what the byte functions compute

  /** in_prefix is membership, for every length. */
  lemma InPrefixIsMembership(address: Address, prefix: Address, plen: U8)
    ensures InPrefix(address, prefix, plen) <==> BitsOf(prefix, Min(plen, 128)) <= BitsOf(address, 128)
  {
    var n := Min(plen, 128);
    PartialBytes(address, prefix, n);
    assert BitsOf(address, n) == BitsOf(address, 128)[..n];
  }

  /** Normalizing keeps the prefix, and gives one representative to each prefix. */
  lemma NormalizeIsCanonical(p: Address, q: Address, plen: U8)
    requires plen <= 128
    ensures BitsOf(Normalize(p, plen), plen) == BitsOf(p, plen)
    ensures Normalize(p, plen) == Normalize(q, plen) <==> BitsOf(p, plen) == BitsOf(q, plen)
    ensures Normalize(Normalize(p, plen), plen) == Normalize(p, plen)
  {
    KeepTopTwice(p[if plen < 128 then plen / 8 else 0], plen % 8);
    PartialBytes(Normalize(p, plen), p, plen);
    PartialBytes(p, q, plen);
    var n := plen / 8;
    if plen < 128 {
      assert Normalize(p, plen)[..n] == p[..n];
      assert Normalize(q, plen)[..n] == q[..n];
      if plen % 8 != 0 {
        assert Normalize(p, plen)[n] == KeepTop(p[n], plen % 8);
        assert Normalize(q, plen)[n] == KeepTop(q[n], plen % 8);
      }
    }
  }

  lemma KeepTopTwice(b: U8, n: nat)
    requires n <= 8
    ensures KeepTop(KeepTop(b, n), n) == KeepTop(b, n)
  {
  }

  /** On other lengths, the byte with the last bits of the shorter prefix is not looked at; of the one behind it as
      many bits are as are missing to a whole byte. */
  lemma UnalignedLooksAt(p1: Address, plen1: nat, past1: U8, p2: Address, plen2: nat, past2: U8)
    requires plen1 <= 128 && plen2 <= 128 && V4Mapped(p1) == V4Mapped(p2)
    requires var plen := Min(plen1, plen2); plen % 8 != 0 && plen < 120 && p1[..plen / 8] == p2[..plen / 8]
    ensures var plen := Min(plen1, plen2);
            var b1, b2 := p1[plen / 8 + 1], p2[plen / 8 + 1];
            PrefixCmp(p1, plen1, past1, p2, plen2, past2) == Disjoint <==>
              exists i: nat :: i < 8 - plen % 8 && BitOf(b1, i) != BitOf(b2, i)
  {
    hide V4Mapped, BitOf, KeepTop;
    var plen := Min(plen1, plen2);
    TopBits(p1[plen / 8 + 1], p2[plen / 8 + 1], 8 - plen % 8);
  }

  /** The bytes that the mask of prefix_cmp inspects decide nothing when the shorter length is whole bytes. */
  lemma AlignedIsCompare(p1: Address, plen1: nat, past1: U8, p2: Address, plen2: nat, past2: U8)
    requires plen1 <= 128 && plen2 <= 128 && Min(plen1, plen2) % 8 == 0 && V4Mapped(p1) == V4Mapped(p2)
    ensures PrefixCmp(p1, plen1, past1, p2, plen2, past2) == Compare(BitsOf(p1, plen1), BitsOf(p2, plen2))
  {
    var plen := Min(plen1, plen2);
    var a, b := BitsOf(p1, plen1), BitsOf(p2, plen2);
    PartialBytes(p1, p2, plen);
    assert a[..plen] == BitsOf(p1, plen) && b[..plen] == BitsOf(p2, plen);
    assert plen == plen1 ==> a[..plen] == a;
    assert plen == plen2 ==> b[..plen] == b;
  }

  ghost predicate IsCompare(plen1: nat, plen2: nat)
    requires plen1 <= 128 && plen2 <= 128
  {
    forall p1: Address, past1: U8, p2: Address, past2: U8 | V4Mapped(p1) == V4Mapped(p2) ::
      PrefixCmp(p1, plen1, past1, p2, plen2, past2) == Compare(BitsOf(p1, plen1), BitsOf(p2, plen2))
  }

  /** prefix_cmp is the order of prefixes exactly when the shorter length is a multiple of 8: otherwise it
      looks at the wrong byte, and takes two disjoint prefixes for nested ones. */
  lemma PrefixCmpExactly(plen1: nat, plen2: nat)
    requires plen1 <= 128 && plen2 <= 128
    ensures IsCompare(plen1, plen2) <==> Min(plen1, plen2) % 8 == 0
  {
    var plen := Min(plen1, plen2);
    if plen % 8 == 0 {
      forall p1: Address, past1: U8, p2: Address, past2: U8 | V4Mapped(p1) == V4Mapped(p2)
        ensures PrefixCmp(p1, plen1, past1, p2, plen2, past2) == Compare(BitsOf(p1, plen1), BitsOf(p2, plen2))
      {
        AlignedIsCompare(p1, plen1, past1, p2, plen2, past2);
      }
    } else {
      WrongByte(plen1, plen2);
    }
  }

  /** An address with a single bit, the first of a byte, and the zero address: prefix_cmp misses the difference. */
  lemma WrongByte(plen1: nat, plen2: nat)
    requires plen1 <= 128 && plen2 <= 128 && Min(plen1, plen2) % 8 != 0
    ensures !IsCompare(plen1, plen2)
  {
    hide V4Mapped, BitsOf, Bit, KeepTop, IsCompare, Compare;
    var n := Min(plen1, plen2) / 8;
    var p: Address := ZEROES[n := 0x80];
    NotMapped(n);
    Apart(plen1, plen2, n);
    assert p[..n] == ZEROES[..n];
    assert n + 1 < 16 ==> p[n + 1] == ZEROES[n + 1];
    assert PrefixCmp(p, plen1, 0, ZEROES, plen2, 0) != Disjoint;
    Refuted(plen1, plen2, p);
  }

  lemma NotMapped(n: nat)
    requires n < 16
    ensures !V4Mapped(ZEROES) && !V4Mapped(ZEROES[n := 0x80])
  {
    assert ZEROES[..12][10] == 0 && ZEROES[n := 0x80][..12][10] != 0xFF;
  }

  lemma Apart(plen1: nat, plen2: nat, n: nat)
    requires 8 * n < plen1 <= 128 && 8 * n < plen2 <= 128
    ensures Compare(BitsOf(ZEROES[n := 0x80], plen1), BitsOf(ZEROES, plen2)) == Disjoint
  {
    hide BitOf;
    var p: Address := ZEROES[n := 0x80];
    FirstBits();
    assert BitsOf(p, plen1)[8 * n] == BitOf(0x80, 0) && BitsOf(ZEROES, plen2)[8 * n] == BitOf(0, 0);
  }

  lemma FirstBits()
    ensures BitOf(0x80, 0) && !BitOf(0, 0)
  {
  }

  lemma Refuted(plen1: nat, plen2: nat, p: Address)
    requires plen1 <= 128 && plen2 <= 128 && V4Mapped(p) == V4Mapped(ZEROES)
    requires PrefixCmp(p, plen1, 0, ZEROES, plen2, 0) != Compare(BitsOf(p, plen1), BitsOf(ZEROES, plen2))
    ensures !IsCompare(plen1, plen2)
  {
    hide V4Mapped, BitsOf, PrefixCmp, Compare;
  }

  /** Across families prefix_cmp calls every pair disjoint, although ::/0 covers every mapped address. */
  lemma FamiliesAreDisjoint(p1: Address, plen1: nat, p2: Address, plen2: nat)
    requires plen1 <= 128 && plen2 <= 128 && V4Mapped(p1) != V4Mapped(p2)
    ensures (PrefixCmp(p1, plen1, 0, p2, plen2, 0) == Compare(BitsOf(p1, plen1), BitsOf(p2, plen2)))
            <==> BitsOf(p1, Min(plen1, plen2)) != BitsOf(p2, Min(plen1, plen2))
  {
  }
}
