/** Small facts about numbers, sequences and sets that several parts share. */
module Basics {

  function Max(a: int, b: int): int { if a > b then a else b }

  function Min(a: int, b: int): int { if a < b then a else b }

  /** `count * unit`, by repeated addition. */
  function Times(count: nat, unit: nat): (r: nat) {
    if count == 0 then 0 else unit + Times(count - 1, unit)
  }

  lemma {:induction false} TimesIsProduct(count: nat, unit: nat)
    ensures Times(count, unit) == count * unit
  {
    if count > 0 { TimesIsProduct(count - 1, unit); }
  }

  lemma {:induction false} TimesMonotone(count': nat, count: nat, unit: nat)
    requires count' < count
    ensures Times(count', unit) + unit <= Times(count, unit)
  {
    if count' + 1 < count {
      TimesMonotone(count', count - 1, unit);
    }
  }

  /** The remainder of `n` by `range`, by repeated subtraction. */
  function Remainder(n: nat, range: nat): (r: nat)
    requires range > 0
    ensures r < range
  {
    if n < range then n else Remainder(n - range, range)
  }

  /** It is the remainder: what some number of whole ranges leaves. */
  lemma {:induction false} RemainderIsLeft(n: nat, range: nat) returns (turns: nat)
    requires range > 0
    ensures n == turns * range + Remainder(n, range)
  {
    if n < range {
      turns := 0;
    } else {
      var fewer := RemainderIsLeft(n - range, range);
      turns := fewer + 1;
      assert turns * range == fewer * range + range;
    }
  }

  /** Numbers less than `range` apart have different remainders. */
  lemma {:induction false} RemaindersDiffer(a: nat, b: nat, range: nat)
    requires a < b < a + range
    ensures Remainder(a, range) != Remainder(b, range)
    decreases b
  {
    if a >= range {
      RemaindersDiffer(a - range, b - range, range);
    }
  }

  lemma {:induction false} RemainderOfNext(n: nat, range: nat)
    requires range > 0
    ensures Remainder(n + 1, range) == if Remainder(n, range) + 1 == range then 0 else Remainder(n, range) + 1
  {
    if n >= range { RemainderOfNext(n - range, range); }
  }

  lemma Reassociate<T>(a: seq<T>, b: seq<T>, c: seq<T>)
    ensures a + (b + c) == (a + b) + c
  {
  }

  lemma SubsetSize<T>(a: set<T>, b: set<T>)
    requires a <= b
    ensures |a| <= |b|
    ensures |a| == |b| ==> a == b
  {
    assert b == a + (b - a);
  }

  lemma ProductOrder(x: int, y: int, d: int)
    requires d > 0 && x * d < y * d
    ensures x < y
  {
  }
}
