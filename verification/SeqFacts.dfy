// Removing an element of a sequence, and sequences without repetition.

module SeqFacts {
  function Without<T>(s: seq<T>, k: nat): (r: seq<T>)
    requires k < |s|
    ensures |r| == |s| - 1
    ensures forall i | 0 <= i < |r| :: r[i] == s[if i < k then i else i + 1]
  {
    s[..k] + s[k + 1..]
  }

  ghost predicate Apart<T>(s: seq<T>, i: int, j: int) {
    0 <= i < j < |s| ==> s[i] != s[j]
  }

  ghost predicate Distinct<T>(s: seq<T>) {
    forall i, j {:trigger Apart(s, i, j)} :: Apart(s, i, j)
  }

  lemma DistinctAt<T>(s: seq<T>, k: nat)
    requires Distinct(s) && k < |s|
    ensures forall i | 0 <= i < |s| && i != k :: s[i] != s[k]
  {
    forall i | 0 <= i < |s| && i != k ensures s[i] != s[k] {
      assert Apart(s, i, k) && Apart(s, k, i);
    }
  }

  lemma DistinctWithout<T>(s: seq<T>, k: nat)
    requires Distinct(s) && k < |s|
    ensures Distinct(Without(s, k)) && s[k] !in Without(s, k)
  {
    DistinctAt(s, k);
    forall i, j ensures Apart(Without(s, k), i, j) {
      assert Apart(s, if i < k then i else i + 1, if j < k then j else j + 1);
    }
  }

  lemma DistinctLast<T>(s: seq<T>, x: T)
    requires Distinct(s) && x !in s
    ensures Distinct(s + [x])
  {
    forall i, j ensures Apart(s + [x], i, j) {
      assert Apart(s, i, j);
    }
  }

  lemma DistinctFirst<T>(s: seq<T>, x: T)
    requires Distinct(s) && x !in s
    ensures Distinct([x] + s)
  {
    forall i, j ensures Apart([x] + s, i, j) {
      assert Apart(s, i - 1, j - 1);
    }
  }

  function Inserted<T>(s: seq<T>, k: nat, x: T): (r: seq<T>)
    requires k <= |s|
    ensures |r| == |s| + 1 && r[k] == x
    ensures forall i | 0 <= i < k :: r[i] == s[i]
    ensures forall i | k < i < |r| :: r[i] == s[i - 1]
  {
    s[..k] + [x] + s[k..]
  }

  lemma InsertedMembers<T>(s: seq<T>, k: nat, x: T)
    requires k <= |s|
    ensures forall y :: y in Inserted(s, k, x) <==> y in s || y == x
  {
    assert s == s[..k] + s[k..];
  }

  lemma InsertedDistinct<T>(s: seq<T>, k: nat, x: T)
    requires Distinct(s) && k <= |s| && x !in s
    ensures Distinct(Inserted(s, k, x))
  {
    forall i, j ensures Apart(Inserted(s, k, x), i, j) {
      assert Apart(s, if i < k then i else i - 1, if j < k then j else j - 1);
    }
  }

  lemma WithoutMembers<T>(s: seq<T>, k: nat)
    requires Distinct(s) && k < |s|
    ensures forall y :: y in Without(s, k) <==> y in s && y != s[k]
  {
    DistinctWithout(s, k);
    assert s == s[..k] + [s[k]] + s[k + 1..];
  }

  // What is left of s when its element number i is cut if cut(c + i).
  function Spared<T>(cut: nat -> bool, c: nat, s: seq<T>): seq<T> {
    if s == [] then []
    else
      var n := |s| - 1;
      Spared(cut, c, s[..n]) + if cut(c + n) then [] else [s[n]]
  }

  lemma SparedNext<T>(cut: nat -> bool, c: nat, s: seq<T>, n: nat)
    requires n < |s|
    ensures Spared(cut, c, s[..n + 1]) == Spared(cut, c, s[..n]) + if cut(c + n) then [] else [s[n]]
  {
    assert s[..n + 1][..n] == s[..n];
  }
}
