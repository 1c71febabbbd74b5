/** The kernel's linked lists, as sequences. `IntrusiveLists` shows that the
    pointer operations of `list.c` compute these functions. */
module Lists {

  ghost predicate NoDup<T>(s: seq<T>) {
    forall i, j :: 0 <= i < j < |s| ==> s[i] != s[j]
  }

  /** `list_remove`: the list without its element `x`. */
  function Without<T(==)>(s: seq<T>, x: T): seq<T> {
    if s == [] then []
    else if s[0] == x then s[1..]
    else [s[0]] + Without(s[1..], x)
  }

  /** Removing keeps the order of what stays: an element removed from between is all that changes. */
  lemma {:induction false} WithoutSplits<T>(a: seq<T>, x: T, b: seq<T>)
    requires x !in a
    ensures Without(a + [x] + b, x) == a + b
  {
    if a == [] {
      assert (a + [x] + b)[1..] == b;
    } else {
      assert (a + [x] + b)[1..] == a[1..] + [x] + b;
      WithoutSplits(a[1..], x, b);
    }
  }

  lemma {:induction false} WithoutAbsent<T>(s: seq<T>, x: T)
    requires x !in s
    ensures Without(s, x) == s
  {
    if s != [] {
      WithoutAbsent(s[1..], x);
    }
  }

  lemma {:induction false} WithoutPairwise<T>(s: seq<T>, x: T, r: (T, T) -> bool)
    requires forall i, j :: 0 <= i < j < |s| ==> r(s[i], s[j])
    ensures |Without(s, x)| <= |s| && forall y :: y in Without(s, x) ==> y in s
    ensures var w := Without(s, x); forall i, j :: 0 <= i < j < |w| ==> r(w[i], w[j])
  {
    if s != [] && s[0] != x {
      WithoutPairwise(s[1..], x, r);
      var w := Without(s[1..], x);
      forall i | 0 <= i < |w| ensures r(s[0], w[i]) {
        assert w[i] in w;
        var k :| 0 <= k < |s[1..]| && s[1..][k] == w[i];
        assert s[k + 1] == w[i];
      }
    }
  }

  lemma {:induction false} WithoutMembers<T>(s: seq<T>, x: T)
    requires NoDup(s)
    ensures NoDup(Without(s, x))
    ensures forall y :: y in Without(s, x) <==> y in s && y != x
  {
    WithoutPairwise(s, x, (a: T, b: T) => a != b);
    if s == [] {
    } else if s[0] == x {
      assert s == [s[0]] + s[1..];
      forall j | 0 <= j < |s[1..]| ensures s[1..][j] != x {
        assert s[1..][j] == s[j + 1];
      }
    } else {
      WithoutMembers(s[1..], x);
      assert s == [s[0]] + s[1..];
    }
  }

  /** `list_insert_before`, in front of element `k`. */
  function Inserted<T>(s: seq<T>, k: nat, x: T): seq<T>
    requires k <= |s|
  {
    s[..k] + [x] + s[k..]
  }

  lemma InsertedAt<T>(s: seq<T>, k: nat, x: T)
    requires k <= |s|
    ensures |Inserted(s, k, x)| == |s| + 1
    ensures forall i :: 0 <= i <= |s| ==> Inserted(s, k, x)[i] == if i < k then s[i] else if i == k then x else s[i - 1]
  {}

  /** The list without element `k`. */
  function Cut<T>(s: seq<T>, k: nat): seq<T>
    requires k < |s|
  {
    s[..k] + s[k + 1..]
  }

  lemma CutAt<T>(s: seq<T>, k: nat)
    requires k < |s|
    ensures |Cut(s, k)| == |s| - 1
    ensures forall i :: 0 <= i < |s| - 1 ==> Cut(s, k)[i] == if i < k then s[i] else s[i + 1]
  {}
}
