/** Orders on sequences. */
module Ordering {
  /** Lexicographic comparison; a proper prefix is lower. */
  function CompareSeq<T>(a: seq<T>, b: seq<T>, cmp: (T, T) -> int): int
    decreases |a|
  {
    if |a| == 0 then (if |b| == 0 then 0 else -1)
    else if |b| == 0 then 1
    else
      var c := cmp(a[0], b[0]);
      if c != 0 then c else CompareSeq(a[1..], b[1..], cmp)
  }

  function CompareChar(x: char, y: char): int {
    if x > y then 1 else if x < y then -1 else 0
  }

  /** Python orders strings by code points. */
  function CompareString(s: string, t: string): int {
    CompareSeq(s, t, CompareChar)
  }

  lemma {:induction false} StringRange(s: string, t: string)
    ensures -1 <= CompareString(s, t) <= 1
  {
    if s != [] && t != [] {
      StringRange(s[1..], t[1..]);
    }
  }

  /** `cmp` is a linear order. */
  ghost predicate Linear<T(!new)>(cmp: (T, T) -> int) {
    && (forall x, y :: cmp(x, y) == -cmp(y, x))
    && (forall x, y :: cmp(x, y) == 0 <==> x == y)
    && (forall x, y, z :: cmp(x, y) < 0 && cmp(y, z) < 0 ==> cmp(x, z) < 0)
  }

  lemma {:induction false} SeqAntisymmetric<T(!new)>(a: seq<T>, b: seq<T>, cmp: (T, T) -> int)
    requires Linear(cmp)
    ensures CompareSeq(a, b, cmp) == -CompareSeq(b, a, cmp)
    ensures CompareSeq(a, b, cmp) == 0 <==> a == b
  {
    if |a| > 0 && |b| > 0 {
      SeqAntisymmetric(a[1..], b[1..], cmp);
      assert cmp(a[0], b[0]) == -cmp(b[0], a[0]);
      assert cmp(a[0], b[0]) == 0 <==> a[0] == b[0];
      assert a == [a[0]] + a[1..] && b == [b[0]] + b[1..];
    }
  }

  lemma {:induction false} SeqTransitive<T(!new)>(a: seq<T>, b: seq<T>, c: seq<T>, cmp: (T, T) -> int)
    requires Linear(cmp) && CompareSeq(a, b, cmp) <= 0 && CompareSeq(b, c, cmp) <= 0
    ensures CompareSeq(a, c, cmp) <= 0
  {
    if |a| > 0 && |b| > 0 && |c| > 0 {
      var x, y, z := a[0], b[0], c[0];
      assert (cmp(x, y) == 0 <==> x == y) && (cmp(y, z) == 0 <==> y == z) && (cmp(x, z) == 0 <==> x == z);
      if x == y == z {
        SeqTransitive(a[1..], b[1..], c[1..], cmp);
      }
    }
  }

  lemma StringsLinear()
    ensures Linear(CompareString)
  {
    assert Linear(CompareChar);
    forall s, t ensures CompareString(s, t) == -CompareString(t, s) && (CompareString(s, t) == 0 <==> s == t) {
      SeqAntisymmetric(s, t, CompareChar);
    }
    forall s, t, u | CompareString(s, t) < 0 && CompareString(t, u) < 0 ensures CompareString(s, u) < 0 {
      SeqTransitive(s, t, u, CompareChar);
      SeqAntisymmetric(s, u, CompareChar);
    }
  }

  /** The sequences agree up to k, and there the first one ends or has the lower element. */
  ghost predicate FirstDifference<T>(a: seq<T>, b: seq<T>, less: (T, T) -> bool, k: nat) {
    && k <= |a| && k <= |b| && a[..k] == b[..k] && k < |b|
    && (k < |a| ==> less(a[k], b[k]))
  }

  ghost predicate Before<T>(a: seq<T>, b: seq<T>, less: (T, T) -> bool) {
    exists k :: FirstDifference(a, b, less, k)
  }

  lemma BeforeSnoc<T(!new)>(s: seq<T>, t: seq<T>, less: (T, T) -> bool)
    requires |s| == |t| > 0
    ensures var k := |s| - 1;
            Before(s, t, less) <==> Before(s[..k], t[..k], less) || (s[..k] == t[..k] && less(s[k], t[k]))
  {
    var k := |s| - 1;
    if Before(s, t, less) {
      var j: nat :| FirstDifference(s, t, less, j);
      if j < k {
        assert s[..k][..j] == s[..j] && t[..k][..j] == t[..j];
        assert FirstDifference(s[..k], t[..k], less, j);
      }
    }
    if Before(s[..k], t[..k], less) {
      var j: nat :| FirstDifference(s[..k], t[..k], less, j);
      assert s[..k][..j] == s[..j] && t[..k][..j] == t[..j];
      assert FirstDifference(s, t, less, j);
    }
    if s[..k] == t[..k] && less(s[k], t[k]) {
      assert FirstDifference(s, t, less, k);
    }
  }

  ghost predicate SameOrder<T(!new)>(cmp: (T, T) -> int, less: (T, T) -> bool) {
    forall x, y :: less(x, y) <==> cmp(x, y) < 0
  }

  lemma {:induction false} ComparedDiffer<T(!new)>(a: seq<T>, b: seq<T>, cmp: (T, T) -> int, less: (T, T) -> bool)
    returns (k: nat)
    requires Linear(cmp) && SameOrder(cmp, less) && CompareSeq(a, b, cmp) < 0
    ensures FirstDifference(a, b, less, k)
  {
    if |a| == 0 || a[0] != b[0] {
      k := 0;
      assert |a| > 0 ==> (cmp(a[0], b[0]) == 0 <==> a[0] == b[0]);
    } else {
      assert cmp(a[0], b[0]) == 0;
      k := ComparedDiffer(a[1..], b[1..], cmp, less);
      k := k + 1;
      assert a[..k] == [a[0]] + a[1..][..k - 1] && b[..k] == [b[0]] + b[1..][..k - 1];
    }
  }

  lemma {:induction false} DifferCompared<T(!new)>(a: seq<T>, b: seq<T>, cmp: (T, T) -> int, less: (T, T) -> bool,
                                            k: nat)
    requires Linear(cmp) && SameOrder(cmp, less) && FirstDifference(a, b, less, k)
    ensures CompareSeq(a, b, cmp) < 0
  {
    if |a| > 0 {
      if k == 0 {
        assert less(a[0], b[0]);
      } else {
        assert a[0] == a[..k][0] == b[..k][0] == b[0];
        assert cmp(a[0], b[0]) == 0;
        assert a[1..][..k - 1] == a[..k][1..] && b[1..][..k - 1] == b[..k][1..];
        DifferCompared(a[1..], b[1..], cmp, less, k - 1);
      }
    }
  }

  lemma BeforeIff<T(!new)>(a: seq<T>, b: seq<T>, cmp: (T, T) -> int, less: (T, T) -> bool)
    requires Linear(cmp) && SameOrder(cmp, less)
    ensures Before(a, b, less) <==> CompareSeq(a, b, cmp) < 0
  {
    if CompareSeq(a, b, cmp) < 0 {
      var k := ComparedDiffer(a, b, cmp, less);
    }
    if Before(a, b, less) {
      var k :| FirstDifference(a, b, less, k);
      DifferCompared(a, b, cmp, less, k);
    }
  }

  /** A string is lower if it ends first, or has the lower character where the two first differ. */
  lemma StringBefore(s: string, t: string)
    ensures CompareString(s, t) < 0 <==> Before(s, t, (c: char, d: char) => c < d)
    ensures CompareString(s, t) == -CompareString(t, s)
  {
    assert Linear(CompareChar);
    BeforeIff(s, t, CompareChar, (c: char, d: char) => c < d);
    SeqAntisymmetric(s, t, CompareChar);
  }
}
