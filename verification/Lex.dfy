/** memcmp, and the comparison functions that are built from it: each is the lexicographic order of a vector
    of numbers, hence a total order. */
module Lex {
  /** memcmp */
  function Compare(a: seq<int>, b: seq<int>): (c: int)
    requires |a| == |b|
    ensures c == 0 <==> a == b
  {
    if a == [] then 0
    else if a[0] != b[0] then (if a[0] < b[0] then -1 else 1)
    else
      assert a == [a[0]] + a[1..] && b == [b[0]] + b[1..];
      Compare(a[1..], b[1..])
  }

  lemma {:induction false} Antisymmetric(a: seq<int>, b: seq<int>)
    requires |a| == |b|
    ensures Compare(b, a) == -Compare(a, b)
  {
    if a != [] && a[0] == b[0] {
      Antisymmetric(a[1..], b[1..]);
    }
  }

  lemma {:induction false} Transitive(a: seq<int>, b: seq<int>, c: seq<int>)
    requires |a| == |b| == |c| && Compare(a, b) <= 0 && Compare(b, c) <= 0
    ensures Compare(a, c) <= 0
    ensures Compare(a, b) < 0 || Compare(b, c) < 0 ==> Compare(a, c) < 0
  {
    if a != [] && a[0] == b[0] && b[0] == c[0] {
      Transitive(a[1..], b[1..], c[1..]);
    }
  }

  /** Comparing in steps, the more significant part first. */
  lemma {:induction false} Concat(a: seq<int>, b: seq<int>, x: seq<int>, y: seq<int>)
    requires |a| == |b| && |x| == |y|
    ensures Compare(a + x, b + y) == if Compare(a, b) != 0 then Compare(a, b) else Compare(x, y)
  {
    if a == [] {
      assert a + x == x && b + y == y;
    } else if a[0] == b[0] {
      assert (a + x)[1..] == a[1..] + x && (b + y)[1..] == b[1..] + y;
      Concat(a[1..], b[1..], x, y);
      assert a == b <==> a[1..] == b[1..];
    }
  }

  /** Vectors of the same layout are equal part by part. */
  lemma Split(a: seq<int>, x: seq<int>, b: seq<int>, y: seq<int>)
    requires |a| == |b| && a + x == b + y
    ensures a == b && x == y
  {
    assert a == (a + x)[..|a|] && b == (b + y)[..|b|];
    assert x == (a + x)[|a|..] && y == (b + y)[|b|..];
  }

  lemma One(m: int, n: int)
    ensures Compare([m], [n]) == if m < n then -1 else if m > n then 1 else 0
  {
  }

  /** Strictly increasing vectors of one width: a sorted table, seen through the keys of its entries. */
  ghost predicate Sorted(vs: seq<seq<int>>, width: nat) {
    && (forall i :: 0 <= i < |vs| ==> |vs[i]| == width)
    && (forall i, j :: 0 <= i < j < |vs| ==> Compare(vs[i], vs[j]) < 0)
  }

  /** Everything before `p` is smaller than `v`, everything after `g` is larger. */
  ghost predicate Between(vs: seq<seq<int>>, width: nat, v: seq<int>, p: int, g: int)
    requires Sorted(vs, width) && |v| == width
  {
    && (forall i :: 0 <= i < |vs| && i < p ==> Compare(vs[i], v) < 0)
    && (forall i :: 0 <= i < |vs| && i > g ==> Compare(v, vs[i]) < 0)
  }

  /** `n` is where a missing vector belongs. */
  ghost predicate Slot(vs: seq<seq<int>>, width: nat, v: seq<int>, n: int)
    requires Sorted(vs, width) && |v| == width
  {
    0 <= n <= |vs| && Between(vs, width, v, n, n - 1)
  }

  /** One comparison of a binary search discards one side of the table. */
  lemma Narrow(vs: seq<seq<int>>, width: nat, v: seq<int>, p: int, m: nat, g: int)
    requires Sorted(vs, width) && |v| == width && Between(vs, width, v, p, g) && m < |vs|
    ensures Compare(v, vs[m]) < 0 ==> Between(vs, width, v, p, m - 1)
    ensures Compare(v, vs[m]) > 0 ==> Between(vs, width, v, m + 1, g)
  {
    Antisymmetric(v, vs[m]);
    if Compare(v, vs[m]) < 0 {
      forall i | m < i < |vs| ensures Compare(v, vs[i]) < 0 { Transitive(v, vs[m], vs[i]); }
    } else if Compare(v, vs[m]) > 0 {
      forall i | 0 <= i < m ensures Compare(vs[i], v) < 0 { Transitive(vs[i], vs[m], v); }
    }
  }

  /** A vector that has a slot is not in the table, and has no other slot. */
  lemma SlotUnique(vs: seq<seq<int>>, width: nat, v: seq<int>, n: int)
    requires Sorted(vs, width) && |v| == width && Slot(vs, width, v, n)
    ensures v !in vs
    ensures forall m :: Slot(vs, width, v, m) ==> m == n
  {
    forall m | Slot(vs, width, v, m) ensures m == n {
      if m < n { Antisymmetric(v, vs[m]); } else if n < m { Antisymmetric(v, vs[n]); }
    }
  }

  lemma InsertSorted(vs: seq<seq<int>>, width: nat, v: seq<int>, n: int)
    requires Sorted(vs, width) && |v| == width && Slot(vs, width, v, n)
    ensures Sorted(vs[..n] + [v] + vs[n..], width)
  {
  }

  lemma RemoveSorted(vs: seq<seq<int>>, width: nat, n: nat)
    requires Sorted(vs, width) && n < |vs|
    ensures Sorted(vs[..n] + vs[n + 1..], width)
  {
  }

  /** Leaving out entries keeps a table sorted. */
  lemma SubsequenceSorted(vs: seq<seq<int>>, width: nat, ws: seq<seq<int>>, at: seq<nat>)
    requires Sorted(vs, width) && |at| == |ws|
    requires forall i :: 0 <= i < |ws| ==> at[i] < |vs| && ws[i] == vs[at[i]]
    requires forall i, j :: 0 <= i < j < |ws| ==> at[i] < at[j]
    ensures Sorted(ws, width)
  {
  }
}
