/** Distinct values of a column in first-seen order: the model of pandas'
    `Series.unique()`, which calculations.py calls on the project column
    (line 48) and on each partition's space-type column (line 64). */
module Distinct {

  /** No value occurs twice in `s`. */
  predicate NoDups<T(==)>(s: seq<T>) {
    forall i, j :: 0 <= i < j < |s| ==> s[i] != s[j]
  }

  /** The position at which `x` first occurs in `s`. */
  ghost function FirstIndex<T>(s: seq<T>, x: T): (k: nat)
    requires x in s
    ensures k < |s| && s[k] == x
    ensures forall j :: 0 <= j < k ==> s[j] != x
  {
    FirstExists(s, x);
    var k :| 0 <= k < |s| && s[k] == x && forall j :: 0 <= j < k ==> s[j] != x; k
  }

  /** A value of `s` has an occurrence with no copy before it. */
  lemma {:induction false} FirstExists<T>(s: seq<T>, x: T)
    requires x in s
    ensures exists k :: 0 <= k < |s| && s[k] == x && forall j :: 0 <= j < k ==> s[j] != x
  {
    if s[0] != x {
      FirstExists(s[1..], x);
      var k :| 0 <= k < |s[1..]| && s[1..][k] == x && forall j :: 0 <= j < k ==> s[1..][j] != x;
      assert s[k + 1] == x;
      forall j | 0 <= j < k + 1 ensures s[j] != x {
        if j > 0 {
          assert s[j] == s[1..][j - 1];
        }
      }
    } else {
      assert s[0] == x;
    }
  }

  /** The distinct values of `s`, each listed once, at the place where it is
      first seen: scanning `s` left to right, a value is appended when it has
      not been listed yet. */
  function Unique<T(==)>(s: seq<T>): (u: seq<T>)
    ensures NoDups(u)
    ensures forall i :: 0 <= i < |u| ==> u[i] in s
    ensures forall i :: 0 <= i < |s| ==> s[i] in u
    ensures |u| <= |s|
  {
    if s == [] then []
    else
      var w := Unique(s[..|s| - 1]);
      var x := s[|s| - 1];
      assert forall i :: 0 <= i < |s| - 1 ==> s[i] == s[..|s| - 1][i];
      if x in w then w else w + [x]
  }

  /** The first occurrence is the only occurrence with no earlier copy. */
  lemma FirstIndexIsEarliest<T>(s: seq<T>, x: T, k: nat)
    requires k < |s| && s[k] == x
    requires forall j :: 0 <= j < k ==> s[j] != x
    ensures FirstIndex(s, x) == k
  {
  }

  /** Appending an element does not move the first occurrence of a value
      that was already present. */
  lemma FirstIndexOfPrefix<T>(s: seq<T>, x: T, y: T)
    requires y in s
    ensures y in s + [x] && FirstIndex(s + [x], y) == FirstIndex(s, y)
  {
    var k := FirstIndex(s, y);
    assert (s + [x])[k] == y;
    forall j | 0 <= j < k ensures (s + [x])[j] != y {
      assert (s + [x])[j] == s[j];
    }
    FirstIndexIsEarliest(s + [x], y, k);
  }

  /** `Unique(s)` lists the values of `s` in the order of their first
      occurrence in `s`. */
  lemma {:induction false} UniqueInFirstSeenOrder<T>(s: seq<T>)
    ensures forall i, j :: 0 <= i < j < |Unique(s)| ==>
              FirstIndex(s, Unique(s)[i]) < FirstIndex(s, Unique(s)[j])
  {
    if s != [] {
      var p, x := s[..|s| - 1], s[|s| - 1];
      assert s == p + [x];
      var w := Unique(p);
      UniqueInFirstSeenOrder(p);
      forall y | y in p ensures y in s && FirstIndex(s, y) == FirstIndex(p, y) {
        FirstIndexOfPrefix(p, x, y);
      }
      if x !in w {
        assert x !in p;
        FirstIndexIsEarliest(s, x, |p|);
        assert Unique(s) == w + [x];
        forall i | 0 <= i < |w| ensures FirstIndex(s, w[i]) < FirstIndex(s, x) {
          assert w[i] in p;
        }
      }
    }
  }

  /** `Unique(s)` is a first-seen list of `s`. */
  lemma UniqueIsFirstSeenList<T>(s: seq<T>)
    ensures FirstSeenList(s, Unique(s))
  {
    UniqueInFirstSeenOrder(s);
  }

  /** A sequence without duplicates is its own list of distinct values. */
  lemma {:induction false} UniqueOfNoDups<T>(s: seq<T>)
    requires NoDups(s)
    ensures Unique(s) == s
  {
    if s != [] {
      var p, x := s[..|s| - 1], s[|s| - 1];
      assert NoDups(p);
      UniqueOfNoDups(p);
      assert x !in p;
      assert s == p + [x];
    }
  }

  /** Taking the distinct values twice gives the same list as taking them
      once. */
  lemma UniqueIdempotent<T>(s: seq<T>)
    ensures Unique(Unique(s)) == Unique(s)
  {
    UniqueOfNoDups(Unique(s));
  }

  /** One step of `Unique`: the last value is appended exactly when it is new. */
  lemma UniqueSnoc<T>(s: seq<T>)
    requires s != []
    ensures Unique(s) == if s[|s| - 1] in s[..|s| - 1] then Unique(s[..|s| - 1])
                         else Unique(s[..|s| - 1]) + [s[|s| - 1]]
  {
  }

  /** `u` lists the values of `s`, each once, in the order of their first
      occurrence in `s`. */
  ghost predicate FirstSeenList<T>(s: seq<T>, u: seq<T>) {
    && NoDups(u)
    && (forall i :: 0 <= i < |u| ==> u[i] in s)
    && (forall i :: 0 <= i < |s| ==> s[i] in u)
    && (forall i, j :: 0 <= i < j < |u| ==> FirstIndex(s, u[i]) < FirstIndex(s, u[j]))
  }

  /** Dropping a last value that occurred before leaves `u` a first-seen list
      of the rest. */
  lemma FirstSeenDropRepeated<T>(s: seq<T>, u: seq<T>)
    requires s != [] && s[|s| - 1] in s[..|s| - 1]
    requires FirstSeenList(s, u)
    ensures FirstSeenList(s[..|s| - 1], u)
  {
    var p, x := s[..|s| - 1], s[|s| - 1];
    assert s == p + [x];
    forall y | y in p ensures y in s && FirstIndex(s, y) == FirstIndex(p, y) {
      FirstIndexOfPrefix(p, x, y);
    }
    forall i | 0 <= i < |u| ensures u[i] in p {
      var k := FirstIndex(s, u[i]);
      if k == |p| {
        assert u[i] == x;
      } else {
        assert p[k] == u[i];
      }
    }
    assert forall i :: 0 <= i < |p| ==> p[i] == s[i];
  }

  /** Dropping a last value seen for the first time drops it from the end of
      `u` and leaves a first-seen list of the rest. */
  lemma FirstSeenDropNew<T>(s: seq<T>, u: seq<T>)
    requires s != [] && s[|s| - 1] !in s[..|s| - 1]
    requires FirstSeenList(s, u)
    ensures u != [] && u[|u| - 1] == s[|s| - 1]
    ensures FirstSeenList(s[..|s| - 1], u[..|u| - 1])
  {
    var p, x := s[..|s| - 1], s[|s| - 1];
    NewValueIsLast(s, u);
    var v := u[..|u| - 1];
    assert u == v + [x];
    forall i | 0 <= i < |v| ensures v[i] in p && FirstIndex(p, v[i]) == FirstIndex(s, v[i]) {
      VisitedBefore(s, u, i);
    }
    forall i | 0 <= i < |p| ensures p[i] in v {
      assert s[i] in u && s[i] != x;
    }
    assert NoDups(v);
    forall i, j | 0 <= i < j < |v| ensures FirstIndex(p, v[i]) < FirstIndex(p, v[j]) {
      assert FirstIndex(s, u[i]) < FirstIndex(s, u[j]);
    }
  }

  /** A value first seen at the very end of `s` is listed last. */
  lemma NewValueIsLast<T>(s: seq<T>, u: seq<T>)
    requires s != [] && s[|s| - 1] !in s[..|s| - 1]
    requires FirstSeenList(s, u)
    ensures u != [] && u[|u| - 1] == s[|s| - 1]
  {
    var p, x := s[..|s| - 1], s[|s| - 1];
    assert s == p + [x];
    assert s[|p|] in u;
    FirstIndexIsEarliest(s, x, |p|);
    var k :| 0 <= k < |u| && u[k] == x;
  }

  /** An entry of `u` before the entry of the new last value occurs in the
      prefix, at the same first position. */
  lemma VisitedBefore<T>(s: seq<T>, u: seq<T>, i: nat)
    requires s != [] && s[|s| - 1] !in s[..|s| - 1]
    requires NoDups(u) && |u| > 0 && u[|u| - 1] == s[|s| - 1]
    requires i < |u| - 1 && u[i] in s
    ensures u[i] in s[..|s| - 1] && FirstIndex(s[..|s| - 1], u[i]) == FirstIndex(s, u[i])
  {
    var p := s[..|s| - 1];
    assert s == p + [s[|s| - 1]];
    var f := FirstIndex(s, u[i]);
    assert u[i] != s[|s| - 1];
    assert f < |p| && p[f] == u[i];
    FirstIndexOfPrefix(p, s[|s| - 1], u[i]);
  }

  /** The first-seen properties determine the list: any duplicate-free list
      of exactly the values of `s`, ordered by first occurrence in `s`, is
      `Unique(s)`. */
  lemma {:induction false} UniqueCharacterized<T>(s: seq<T>, u: seq<T>)
    requires FirstSeenList(s, u)
    ensures u == Unique(s)
  {
    if s != [] {
      var p, x := s[..|s| - 1], s[|s| - 1];
      if x in p {
        FirstSeenDropRepeated(s, u);
        UniqueCharacterized(p, u);
        UniqueSnoc(s);
      } else {
        FirstSeenDropNew(s, u);
        var v := u[..|u| - 1];
        UniqueCharacterized(p, v);
        UniqueSnoc(s);
        assert u == v + [x];
      }
    }
  }


  /** Equal values of `s` stand next to each other: reading `s` from left to
      right, a value seen before is always the value just before it. */
  predicate Contiguous<T(==)>(s: seq<T>) {
    |s| <= 1 || (Contiguous(s[..|s| - 1]) && (s[|s| - 1] in s[..|s| - 1] ==> s[|s| - 2] == s[|s| - 1]))
  }

  /** In a contiguous sequence no other value comes between two copies of a
      value. */
  lemma {:induction false} ContiguousNoInterleaving<T>(s: seq<T>)
    requires Contiguous(s)
    ensures forall i, j, k :: 0 <= i < j < k < |s| && s[i] == s[k] ==> s[j] == s[k]
  {
    if |s| > 1 {
      var p := s[..|s| - 1];
      ContiguousNoInterleaving(p);
      forall i, j | 0 <= i < j < |s| - 1 && s[i] == s[|s| - 1] ensures s[j] == s[|s| - 1] {
        assert p[i] == s[i];
        assert s[|s| - 2] == s[|s| - 1];
        if j < |s| - 2 {
          assert p[i] == p[|p| - 1];
        }
      }
    }
  }

  /** Conversely, a sequence in which no other value comes between two copies
      of a value is contiguous. */
  lemma {:induction false} NoInterleavingIsContiguous<T>(s: seq<T>)
    requires forall i, j, k :: 0 <= i < j < k < |s| && s[i] == s[k] ==> s[j] == s[k]
    ensures Contiguous(s)
  {
    if |s| > 1 {
      var p := s[..|s| - 1];
      forall i, j, k | 0 <= i < j < k < |p| && p[i] == p[k] ensures p[j] == p[k] {
        assert s[i] == s[k] && s[j] == p[j];
      }
      NoInterleavingIsContiguous(p);
      if s[|s| - 1] in p {
        var i :| 0 <= i < |p| && p[i] == s[|s| - 1];
        if i < |s| - 2 {
          assert s[i] == s[|s| - 1];
        }
      }
    }
  }

  /** `Contiguous` means exactly that no other value comes between two copies
      of a value. */
  lemma ContiguousIffNoInterleaving<T>(s: seq<T>)
    ensures Contiguous(s) <==> forall i, j, k :: 0 <= i < j < k < |s| && s[i] == s[k] ==> s[j] == s[k]
  {
    if Contiguous(s) {
      ContiguousNoInterleaving(s);
    }
    if forall i, j, k :: 0 <= i < j < k < |s| && s[i] == s[k] ==> s[j] == s[k] {
      NoInterleavingIsContiguous(s);
    }
  }

  /** When equal values are contiguous, the last distinct value is the last
      value. */
  lemma {:induction false} UniqueLastOfContiguous<T>(s: seq<T>)
    requires s != [] && Contiguous(s)
    ensures Unique(s) != [] && Unique(s)[|Unique(s)| - 1] == s[|s| - 1]
  {
    var p, x := s[..|s| - 1], s[|s| - 1];
    UniqueSnoc(s);
    if x in p {
      UniqueLastOfContiguous(p);
    }
  }

  /** In a contiguous sequence, a last value that was seen before is the last
      distinct value of the values before it. */
  lemma RepeatIsLastDistinct<T>(s: seq<T>)
    requires s != [] && Contiguous(s) && s[|s| - 1] in s[..|s| - 1]
    ensures Unique(s[..|s| - 1]) != [] && Unique(s[..|s| - 1])[|Unique(s[..|s| - 1])| - 1] == s[|s| - 1]
  {
    var p := s[..|s| - 1];
    assert p[|p| - 1] == s[|s| - 2];
    UniqueLastOfContiguous(p);
  }

  /** The first-seen properties and `Unique` agree on every input: `u` is a
      first-seen list of `s` exactly when it is `Unique(s)`. */
  lemma FirstSeenListIffUnique<T>(s: seq<T>, u: seq<T>)
    ensures FirstSeenList(s, u) <==> u == Unique(s)
  {
    if FirstSeenList(s, u) {
      UniqueCharacterized(s, u);
    }
    if u == Unique(s) {
      UniqueIsFirstSeenList(s);
    }
  }
}
