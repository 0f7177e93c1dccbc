/** Facts about Python lists used as ordered collections: first occurrences,
    `list.remove`, and de-duplication that keeps the order of first appearance. */
module Sequences {

  /** No element occurs twice. */
  predicate NoDup<T(==)>(s: seq<T>) {
    forall i, j :: 0 <= i < j < |s| ==> s[i] != s[j]
  }

  lemma NoDupAppend<T>(s: seq<T>, x: T)
    ensures NoDup(s + [x]) <==> NoDup(s) && x !in s
  {
    var t := s + [x];
    if NoDup(t) {
      forall i, j | 0 <= i < j < |s|
        ensures s[i] != s[j]
      {
        assert t[i] == s[i] && t[j] == s[j];
      }
      forall j | 0 <= j < |s|
        ensures s[j] != x
      {
        assert t[j] == s[j] && t[|s|] == x;
      }
    }
    if NoDup(s) && x !in s {
      forall i, j | 0 <= i < j < |t|
        ensures t[i] != t[j]
      {
        assert t[i] == s[i];
      }
    }
  }

  /** Prepending keeps a list free of repetitions exactly when the element is new. */
  lemma NoDupCons<T>(x: T, s: seq<T>)
    ensures NoDup([x] + s) <==> NoDup(s) && x !in s
  {
    var t := [x] + s;
    if NoDup(t) {
      forall i, j | 0 <= i < j < |s|
        ensures s[i] != s[j]
      {
        assert t[i + 1] == s[i] && t[j + 1] == s[j];
      }
      forall j | 0 <= j < |s|
        ensures s[j] != x
      {
        assert t[j + 1] == s[j] && t[0] == x;
      }
    }
    if NoDup(s) && x !in s {
      forall i, j | 0 <= i < j < |t|
        ensures t[i] != t[j]
      {
        assert t[j] == s[j - 1];
      }
    }
  }

  /** Position of the first occurrence of `x` in `s`, or -1 when `x` is absent
      (`list.index`, with -1 standing for its ValueError). */
  function IndexOf<T(==)>(s: seq<T>, x: T): (i: int)
    ensures -1 <= i < |s|
    ensures i < 0 <==> x !in s
    ensures 0 <= i ==> s[i] == x && x !in s[..i]
  {
    if s == [] then -1
    else if s[0] == x then 0
    else
      var j := IndexOf(s[1..], x);
      assert j >= 0 ==> s[..j + 1] == [s[0]] + s[1..][..j];
      if j < 0 then -1 else j + 1
  }

  /** Any occurrence that has no earlier occurrence is the one `IndexOf` finds. */
  lemma IndexOfUnique<T>(s: seq<T>, x: T, i: int)
    requires 0 <= i < |s| && s[i] == x && x !in s[..i]
    ensures IndexOf(s, x) == i
  {
    var k := IndexOf(s, x);
    forall j | 0 <= j < i
      ensures s[j] != x
    {
      assert s[..i][j] == s[j];
    }
    forall j | 0 <= j < k
      ensures s[j] != x
    {
      assert s[..k][j] == s[j];
    }
  }

  /** Appending an element does not move the first occurrence of anything already present. */
  lemma IndexOfAppend<T>(s: seq<T>, y: T, x: T)
    ensures x in s ==> IndexOf(s + [y], x) == IndexOf(s, x)
    ensures x !in s && x == y ==> IndexOf(s + [y], x) == |s|
  {
    var t := s + [y];
    if x in s {
      var i := IndexOf(s, x);
      assert t[..i] == s[..i];
      IndexOfUnique(t, x, i);
    } else if x == y {
      assert t[..|s|] == s;
      IndexOfUnique(t, x, |s|);
    }
  }

  /** `list.remove(x)`: drops the first occurrence of `x` and keeps everything else in order. */
  function RemoveFirst<T(==)>(s: seq<T>, x: T): (r: seq<T>)
    requires x in s
    ensures |r| == |s| - 1
    ensures multiset(r) == multiset(s) - multiset{x}
    ensures forall k :: 0 <= k < |r| ==> r[k] == if k < IndexOf(s, x) then s[k] else s[k + 1]
  {
    var i := IndexOf(s, x);
    MultisetRemoveAt(s, i);
    s[..i] + s[i + 1..]
  }

  lemma MultisetRemoveAt<T>(s: seq<T>, i: int)
    requires 0 <= i < |s|
    ensures multiset(s[..i] + s[i + 1..]) == multiset(s) - multiset{s[i]}
  {
    assert s == s[..i] + [s[i]] + s[i + 1..];
  }

  /** Removing the only occurrence of `x` from a list without repetitions leaves
      a list without repetitions that no longer holds `x`. */
  lemma RemoveFirstDistinct<T>(s: seq<T>, x: T)
    requires NoDup(s) && x in s
    ensures NoDup(RemoveFirst(s, x)) && x !in RemoveFirst(s, x)
  {
    var r := RemoveFirst(s, x);
    var w := IndexOf(s, x);
    forall a, b | 0 <= a < b < |r|
      ensures r[a] != r[b]
    {
      assert r[a] == s[if a < w then a else a + 1];
      assert r[b] == s[if b < w then b else b + 1];
    }
    forall a | 0 <= a < |r|
      ensures r[a] != x
    {
      assert r[a] == s[if a < w then a else a + 1];
    }
  }

  /** The elements of `s` without repetitions, in order of first appearance. */
  function Dedup<T(==)>(s: seq<T>): seq<T>
  {
    if s == [] then []
    else
      var d := Dedup(s[..|s| - 1]);
      if s[|s| - 1] in d then d else d + [s[|s| - 1]]
  }

  lemma {:induction false} DedupMembers<T>(s: seq<T>)
    ensures forall x :: x in Dedup(s) <==> x in s
  {
    if s != [] {
      var init := s[..|s| - 1];
      DedupMembers(init);
      assert s == init + [s[|s| - 1]];
    }
  }

  lemma {:induction false} DedupNoDup<T>(s: seq<T>)
    ensures NoDup(Dedup(s))
  {
    if s != [] {
      DedupNoDup(s[..|s| - 1]);
    }
  }

  /** Earlier elements of `Dedup(s)` first appear earlier in `s`. */
  lemma {:induction false} DedupFirstAppearance<T>(s: seq<T>)
    ensures forall i, j :: 0 <= i < j < |Dedup(s)| ==> IndexOf(s, Dedup(s)[i]) < IndexOf(s, Dedup(s)[j])
  {
    if s != [] {
      var init, x := s[..|s| - 1], s[|s| - 1];
      var d := Dedup(init);
      var r := Dedup(s);
      DedupFirstAppearance(init);
      DedupMembers(init);
      assert s == init + [x];
      forall y | y in d
        ensures IndexOf(s, y) == IndexOf(init, y) < |init|
      {
        IndexOfAppend(init, x, y);
      }
      IndexOfAppend(init, x, x);
      forall i, j | 0 <= i < j < |r|
        ensures IndexOf(s, r[i]) < IndexOf(s, r[j])
      {
        assert r[i] == d[i];
        if j < |d| {
          assert r[j] == d[j];
        } else {
          assert r[j] == x && x !in init;
        }
      }
    }
  }

  /** De-duplication never lengthens a list, and leaves it alone exactly when it has no repetitions. */
  lemma {:induction false} DedupLength<T>(s: seq<T>)
    ensures |Dedup(s)| <= |s|
    ensures |Dedup(s)| == |s| <==> NoDup(s)
    ensures NoDup(s) ==> Dedup(s) == s
  {
    if s != [] {
      var init, x := s[..|s| - 1], s[|s| - 1];
      DedupLength(init);
      DedupMembers(init);
      assert s == init + [x];
      if NoDup(s) {
        assert NoDup(init);
        forall k | 0 <= k < |init|
          ensures init[k] != x
        {
          assert init[k] == s[k];
        }
      } else if x !in init {
        assert !NoDup(init);
      }
    }
  }
}
