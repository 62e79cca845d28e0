// Shared vocabulary: optional values, duplicate-free sequences, machine integers.
module Basics {

  datatype Option<+T> = None | Some(value: T)

  datatype Result<+T, +E> = Ok(value: T) | Err(error: E)

  ghost predicate NoDup<T>(s: seq<T>) {
    forall i, j :: 0 <= i < j < |s| ==> s[i] != s[j]
  }

  /** The sequence without its first occurrence of `x`. */
  function Without<T(==)>(s: seq<T>, x: T): (r: seq<T>)
    ensures |r| <= |s|
  {
    if s == [] then [] else if s[0] == x then s[1..] else [s[0]] + Without(s[1..], x)
  }

  lemma {:induction false} WithoutProps<T>(s: seq<T>, x: T)
    requires NoDup(s)
    ensures NoDup(Without(s, x))
    ensures forall y :: y in Without(s, x) <==> y in s && y != x
    ensures |Without(s, x)| == if x in s then |s| - 1 else |s|
  {
    if s == [] {
    } else if s[0] == x {
      assert s == [s[0]] + s[1..];
    } else {
      WithoutProps(s[1..], x);
      var t := Without(s[1..], x);
      assert s == [s[0]] + s[1..];
      assert s[0] !in t;
    }
  }

  /** Removing an element keeps the relative order of all the others. */
  lemma {:induction false} WithoutSplit<T>(a: seq<T>, x: T, b: seq<T>)
    requires x !in a
    ensures Without(a + [x] + b, x) == a + b
  {
    if a == [] {
      assert a + [x] + b == [x] + b && a + b == b;
    } else {
      WithoutSplit(a[1..], x, b);
      assert (a + [x] + b)[1..] == a[1..] + [x] + b;
      assert a + b == [a[0]] + (a[1..] + b);
    }
  }

  lemma {:induction false} WithoutAbsent<T>(s: seq<T>, x: T)
    requires x !in s
    ensures Without(s, x) == s
  {
    if s != [] {
      WithoutAbsent(s[1..], x);
    }
  }

  function Elements<T>(s: seq<T>): set<T> {
    set x | x in s
  }

  lemma {:induction false} NoDupCardinality<T>(s: seq<T>)
    requires NoDup(s)
    ensures |Elements(s)| == |s|
  {
    if s != [] {
      var n := |s| - 1;
      NoDupCardinality(s[..n]);
      assert s == s[..n] + [s[n]];
      assert Elements(s) == Elements(s[..n]) + {s[n]};
      assert s[n] !in Elements(s[..n]);
    }
  }

  lemma {:induction false} SubsetCardinality<T>(a: set<T>, b: set<T>)
    requires a <= b
    ensures |a| <= |b|
  {
    if a != {} {
      var x :| x in a;
      SubsetCardinality(a - {x}, b - {x});
    }
  }

  lemma RemoveAt<T>(s: seq<T>, j: nat)
    requires j < |s|
    ensures s == s[..j] + ([s[j]] + s[j + 1..])
    ensures multiset(s) == multiset(s[..j] + s[j + 1..]) + multiset{s[j]}
  {
    assert s == s[..j] + ([s[j]] + s[j + 1..]);
  }

  function Sum<T>(w: T -> nat, s: seq<T>): nat
    decreases |s|
  {
    if s == [] then 0 else Sum(w, s[..|s| - 1]) + w(s[|s| - 1])
  }

  lemma {:induction false} SumAppend<T>(w: T -> nat, a: seq<T>, b: seq<T>)
    ensures Sum(w, a + b) == Sum(w, a) + Sum(w, b)
    decreases |b|
  {
    if b == [] {
      assert a + b == a;
    } else {
      assert (a + b)[..|a + b| - 1] == a + b[..|b| - 1];
      SumAppend(w, a, b[..|b| - 1]);
    }
  }

  lemma SumOne<T>(w: T -> nat, x: T)
    ensures Sum(w, [x]) == w(x)
  {
    assert [x][..0] == [];
  }

  /** A sum does not depend on the order. */
  lemma {:induction false} SumPermuted<T>(w: T -> nat, a: seq<T>, b: seq<T>)
    requires multiset(a) == multiset(b)
    ensures Sum(w, a) == Sum(w, b)
    decreases |a|
  {
    assert |multiset(a)| == |a| && |multiset(b)| == |b|;
    if a != [] {
      var n := |a| - 1;
      RemoveAt(a, n);
      assert a[..n] + a[n + 1..] == a[..n];
      assert a[n] in multiset(b);
      var j :| 0 <= j < |b| && b[j] == a[n];
      RemoveAt(b, j);
      var rest := b[..j] + b[j + 1..];
      assert multiset(rest) == multiset(b) - multiset{a[n]};
      assert multiset(a[..n]) == multiset(a) - multiset{a[n]};
      SumPermuted(w, a[..n], rest);
      SumAppend(w, b[..j], b[j + 1..]);
      SumAppend(w, b[..j], [b[j]] + b[j + 1..]);
      SumAppend(w, [b[j]], b[j + 1..]);
      SumOne(w, b[j]);
    }
  }

  const TWO_TO_63: int := 0x8000_0000_0000_0000
  const TWO_TO_64: int := 0x1_0000_0000_0000_0000

  predicate FitsInt64(n: int) {
    -TWO_TO_63 <= n < TWO_TO_63
  }

  /** The int64 a two's complement addition leaves behind. */
  function WrapInt64(n: int): (r: int)
    ensures FitsInt64(r)
    ensures FitsInt64(n) ==> r == n
  {
    (n + TWO_TO_63) % TWO_TO_64 - TWO_TO_63
  }

  lemma WrapIncrement(n: int)
    ensures WrapInt64(WrapInt64(n) + 1) == WrapInt64(n + 1)
  {
    var m := n + TWO_TO_63;
    ModIncrement(m, TWO_TO_64);
  }

  lemma ModIncrement(m: int, d: int)
    requires d > 1
    ensures (m % d + 1) % d == (m + 1) % d
  {
    var q, r := m / d, m % d;
    assert m == q * d + r;
    if r + 1 < d {
      DivModUnique(m + 1, d, q, r + 1);
      DivModUnique(r + 1, d, 0, r + 1);
    } else {
      assert (q + 1) * d == q * d + d;
      DivModUnique(m + 1, d, q + 1, 0);
      DivModUnique(r + 1, d, 1, 0);
    }
  }

  lemma MultiplesApart(a: int, b: int, d: int)
    requires a < b && d > 0
    ensures a * d + d <= b * d
  {
    assert (b - a - 1) * d >= 0;
    assert (b - a - 1) * d == b * d - a * d - d;
  }

  lemma DivModUnique(m: int, d: int, q: int, r: int)
    requires d > 0 && m == q * d + r && 0 <= r < d
    ensures m / d == q && m % d == r
  {
    if m / d < q {
      MultiplesApart(m / d, q, d);
    } else if q < m / d {
      MultiplesApart(q, m / d, d);
    }
  }
}
