/**
 * The parts of java.lang.String and java.util.Collections that the view model
 * relies on: the natural ordering of strings (String.compareTo), the string
 * hash (String.hashCode) and sorting a list of strings (Collections.sort).
 * Characters are compared by their numeric value.
 */
module JavaString {

  /** String.compareTo: the difference of the first differing characters,
      or the difference of the lengths when one string is a prefix of the other. */
  function CompareTo(a: string, b: string): int
  {
    if |a| == 0 || |b| == 0 then |a| - |b|
    else if a[0] != b[0] then a[0] as int - b[0] as int
    else CompareTo(a[1..], b[1..])
  }

  /** compareTo as its documentation describes it: with a common prefix of
      length k, the difference of the characters at k when they differ there,
      and the difference of the lengths when k is the end of either string. */
  lemma {:induction false} CompareToFirstDifference(a: string, b: string, k: nat)
    requires k <= |a| && k <= |b| && a[..k] == b[..k]
    ensures k < |a| && k < |b| && a[k] != b[k] ==> CompareTo(a, b) == a[k] as int - b[k] as int
    ensures k == |a| || k == |b| ==> CompareTo(a, b) == |a| - |b|
  {
    if k > 0 {
      assert a[0] == a[..k][0] && b[0] == b[..k][0];
      assert a[1..][..k - 1] == a[..k][1..] && b[1..][..k - 1] == b[..k][1..];
      CompareToFirstDifference(a[1..], b[1..], k - 1);
    }
  }

  /** The ordering is exactly antisymmetric: swapping the operands negates the result. */
  lemma {:induction false} CompareToAntisymmetric(a: string, b: string)
    ensures CompareTo(b, a) == -CompareTo(a, b)
  {
    if |a| != 0 && |b| != 0 && a[0] == b[0] {
      CompareToAntisymmetric(a[1..], b[1..]);
    }
  }

  /** compareTo returns zero exactly for equal strings (it is consistent with equals). */
  lemma {:induction false} CompareToZero(a: string, b: string)
    ensures CompareTo(a, b) == 0 <==> a == b
  {
    if |a| != 0 && |b| != 0 && a[0] == b[0] {
      CompareToZero(a[1..], b[1..]);
      assert a == [a[0]] + a[1..] && b == [b[0]] + b[1..];
    }
  }

  /** The induced "at most" relation is transitive. */
  lemma {:induction false} CompareToTransitive(a: string, b: string, c: string)
    requires CompareTo(a, b) <= 0 && CompareTo(b, c) <= 0
    ensures CompareTo(a, c) <= 0
  {
    if |a| != 0 && |b| != 0 && |c| != 0 && a[0] == b[0] && b[0] == c[0] {
      CompareToTransitive(a[1..], b[1..], c[1..]);
    }
  }

  /** Ascending order under String.compareTo. */
  ghost predicate Sorted(s: seq<string>)
  {
    forall i, j :: 0 <= i < j < |s| ==> CompareTo(s[i], s[j]) <= 0
  }

  /** Inserts x before the first element it does not exceed. */
  function Insert(x: string, s: seq<string>): (r: seq<string>)
    ensures multiset(r) == multiset(s) + multiset{x}
    ensures |r| == |s| + 1
  {
    if s == [] then [x]
    else if CompareTo(x, s[0]) <= 0 then [x] + s
    else
      assert s == [s[0]] + s[1..];
      [s[0]] + Insert(x, s[1..])
  }

  lemma {:induction false} InsertKeepsSorted(x: string, s: seq<string>)
    requires Sorted(s)
    ensures Sorted(Insert(x, s))
  {
    if s == [] {
    } else if CompareTo(x, s[0]) <= 0 {
      forall j | 0 <= j < |s| ensures CompareTo(x, s[j]) <= 0 {
        if j > 0 { CompareToTransitive(x, s[0], s[j]); }
      }
    } else {
      InsertKeepsSorted(x, s[1..]);
      CompareToAntisymmetric(x, s[0]);
      var r := Insert(x, s[1..]);
      assert Sorted(s[1..]);
      forall k | 0 <= k < |r| ensures CompareTo(s[0], r[k]) <= 0 {
        assert r[k] in multiset(r);
        assert r[k] in multiset(s[1..]) + multiset{x};
        if r[k] != x {
          assert r[k] in s[1..];
          var m :| 0 <= m < |s[1..]| && s[1..][m] == r[k];
          assert s[m + 1] == r[k];
        }
      }
    }
  }

  /** Collections.sort on a list of strings. Because compareTo is zero only for
      equal strings, every sorting algorithm yields the same list; insertion sort
      serves as the reference definition. */
  function Sort(s: seq<string>): (r: seq<string>)
    ensures multiset(r) == multiset(s)
    ensures |r| == |s|
  {
    if s == [] then []
    else
      assert s == [s[0]] + s[1..];
      Insert(s[0], Sort(s[1..]))
  }

  lemma {:induction false} SortSorted(s: seq<string>)
    ensures Sorted(Sort(s))
  {
    if s != [] {
      SortSorted(s[1..]);
      InsertKeepsSorted(s[0], Sort(s[1..]));
    }
  }

  const TWO_TO_32: int := 0x1_0000_0000
  const TWO_TO_31: int := 0x8000_0000

  /** String.hashCode as an unsigned 32-bit value: h = 31 * h + c over the characters,
      with Java's int wrap-around. */
  function Hash32(s: string): (h: int)
    ensures 0 <= h < TWO_TO_32
  {
    if s == [] then 0
    else (31 * Hash32(s[..|s| - 1]) + s[|s| - 1] as int) % TWO_TO_32
  }

  function Pow31(n: nat): nat
  {
    if n == 0 then 1 else 31 * Pow31(n - 1)
  }

  /** The hash as the String.hashCode documentation writes it, before the
      int wrap-around: s[0]*31^(n-1) + s[1]*31^(n-2) + ... + s[n-1]. */
  function Polynomial(s: string): int
  {
    if s == [] then 0 else s[0] as int * Pow31(|s| - 1) + Polynomial(s[1..])
  }

  /** Appending a character multiplies the polynomial by 31 and adds the character. */
  lemma {:induction false} PolynomialAppend(s: string, c: char)
    ensures Polynomial(s + [c]) == 31 * Polynomial(s) + c as int
  {
    if s != [] {
      assert (s + [c])[1..] == s[1..] + [c];
      PolynomialAppend(s[1..], c);
      assert s[0] as int * Pow31(|s|) == 31 * (s[0] as int * Pow31(|s| - 1));
    }
  }

  lemma ModShift(x: int, c: int)
    ensures (31 * (x % TWO_TO_32) + c) % TWO_TO_32 == (31 * x + c) % TWO_TO_32
  {
    var q := x / TWO_TO_32;
    assert x == q * TWO_TO_32 + x % TWO_TO_32;
    assert 31 * x + c == (31 * (x % TWO_TO_32) + c) + (31 * q) * TWO_TO_32;
  }

  /** The recursive hash is the documented polynomial taken modulo 2^32. */
  lemma {:induction false} Hash32IsPolynomial(s: string)
    ensures Hash32(s) == Polynomial(s) % TWO_TO_32
  {
    if s != [] {
      var init, c := s[..|s| - 1], s[|s| - 1];
      assert s == init + [c];
      Hash32IsPolynomial(init);
      PolynomialAppend(init, c);
      ModShift(Polynomial(init), c as int);
    }
  }

  /** Reinterprets an unsigned 32-bit value as a Java int (two's complement). */
  function ToInt32(u: int): (i: int)
    requires 0 <= u < TWO_TO_32
    ensures -TWO_TO_31 <= i < TWO_TO_31
    ensures (i - u) % TWO_TO_32 == 0
  {
    if u < TWO_TO_31 then u else u - TWO_TO_32
  }

  /** String.hashCode. */
  function HashCode(s: string): (h: int)
    ensures -TWO_TO_31 <= h < TWO_TO_31
  {
    ToInt32(Hash32(s))
  }
}
