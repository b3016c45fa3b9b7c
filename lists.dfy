/**
 * Sequences used as ordered sets, the way a JavaScript `Set` keeps its
 * elements in insertion order, and the `filter` calls made on them.
 */
module Lists {

  predicate NoDups<T(==)>(s: seq<T>) {
    forall i, j :: 0 <= i < j < |s| ==> s[i] != s[j]
  }

  /** The position of the first `x` in `s` (`s.indexOf(x)` when `x` occurs). */
  function FirstIndex<T(==)>(s: seq<T>, x: T): (k: nat)
    requires x in s
    ensures k < |s| && s[k] == x && x !in s[..k]
  {
    if s[0] == x then 0 else 1 + FirstIndex(s[1..], x)
  }

  /**
   * The elements of `s` in the order of their first occurrence: what adding
   * `s` element by element to a fresh `Set` and spreading it gives.
   */
  function Distinct<T(==)>(s: seq<T>): seq<T> {
    if |s| == 0 then []
    else
      var d := Distinct(s[..|s| - 1]);
      if s[|s| - 1] in d then d else d + [s[|s| - 1]]
  }

  /** Adding one more element to the set adds it at the end unless it is already there. */
  lemma DistinctSnoc<T>(s: seq<T>, x: T)
    ensures Distinct(s + [x]) == if x in Distinct(s) then Distinct(s) else Distinct(s) + [x]
  {
    assert (s + [x])[..|s|] == s;
  }

  /** `s.filter(x => !excluded.has(x))`. */
  function RemoveAll<T(==,!new)>(s: seq<T>, excluded: set<T>): (r: seq<T>)
    ensures forall x :: x in r <==> x in s && x !in excluded
    ensures |r| <= |s|
  {
    if |s| == 0 then []
    else
      var r := RemoveAll(s[..|s| - 1], excluded);
      assert s == s[..|s| - 1] + [s[|s| - 1]];
      if s[|s| - 1] in excluded then r else r + [s[|s| - 1]]
  }

  /** The elements of `d` all occur in `s`, and `d` lists them in the order of their first occurrence in `s`. */
  predicate InFirstOccurrenceOrder<T(==)>(d: seq<T>, s: seq<T>) {
    forall i, j :: 0 <= i < j < |d| ==> d[i] in s && d[j] in s && FirstIndex(s, d[i]) < FirstIndex(s, d[j])
  }

  /** `Distinct(s)` holds each element of `s` once, in the order of first occurrence. */
  lemma {:induction false} DistinctSpec<T>(s: seq<T>)
    ensures forall x :: x in Distinct(s) <==> x in s
    ensures NoDups(Distinct(s))
    ensures InFirstOccurrenceOrder(Distinct(s), s)
  {
    DistinctMembers(s);
    if |s| > 0 {
      var s', x := s[..|s| - 1], s[|s| - 1];
      DistinctSpec(s');
      assert s == s' + [x];
      DistinctOrderStep(s', x);
    }
  }

  /** The elements of `Distinct(s)` are those of `s`. */
  lemma {:induction false} DistinctMembers<T>(s: seq<T>)
    ensures forall x :: x in Distinct(s) <==> x in s
  {
    if |s| > 0 {
      DistinctMembers(s[..|s| - 1]);
      assert s == s[..|s| - 1] + [s[|s| - 1]];
    }
  }

  /** One more element keeps `Distinct` free of repetitions and in first-occurrence order. */
  lemma DistinctOrderStep<T>(s': seq<T>, x: T)
    requires forall y :: y in Distinct(s') <==> y in s'
    requires NoDups(Distinct(s')) && InFirstOccurrenceOrder(Distinct(s'), s')
    ensures NoDups(Distinct(s' + [x])) && InFirstOccurrenceOrder(Distinct(s' + [x]), s' + [x])
  {
    DistinctSnoc(s', x);
    FirstIndexesExtend(s', x);
    if x !in Distinct(s') {
      AppendNewInOrder(Distinct(s'), s', x);
    }
  }

  /** Appending an element new to `s'` keeps the order of first occurrence in `s' + [x]`. */
  lemma AppendNewInOrder<T>(d: seq<T>, s': seq<T>, x: T)
    requires x !in s' && NoDups(d) && InFirstOccurrenceOrder(d, s')
    requires forall y :: y in d ==> y in s'
    requires forall y :: y in s' ==> FirstIndex(s' + [x], y) == FirstIndex(s', y)
    ensures NoDups(d + [x]) && InFirstOccurrenceOrder(d + [x], s' + [x])
  {
    var s, e := s' + [x], d + [x];
    assert FirstIndex(s, x) == |s'| by {
      assert s[..|s'|] == s';
    }
    forall i, j | 0 <= i < j < |e|
      ensures e[i] != e[j]
      ensures e[i] in s && e[j] in s && FirstIndex(s, e[i]) < FirstIndex(s, e[j])
    {
      assert e[i] == d[i] && d[i] in d;
      if j < |d| {
        assert e[j] == d[j];
      } else {
        assert e[j] == x;
      }
    }
  }

  /** Appending an element leaves the first index of every element already there. */
  lemma FirstIndexesExtend<T>(s: seq<T>, x: T)
    ensures forall y :: y in s ==> FirstIndex(s + [x], y) == FirstIndex(s, y)
  {
    forall y | y in s
      ensures FirstIndex(s + [x], y) == FirstIndex(s, y)
    {
      FirstIndexExtend(s, x, y);
    }
  }

  lemma {:induction false} FirstIndexExtend<T>(s: seq<T>, x: T, y: T)
    requires y in s
    ensures FirstIndex(s + [x], y) == FirstIndex(s, y)
  {
    if s[0] != y {
      assert (s + [x])[1..] == s[1..] + [x];
      FirstIndexExtend(s[1..], x, y);
    }
  }

  /** Filtering keeps the order of what remains and adds no repetition. */
  lemma {:induction false} RemoveAllNoDups<T(!new)>(s: seq<T>, excluded: set<T>)
    requires NoDups(s)
    ensures NoDups(RemoveAll(s, excluded))
  {
    if |s| > 0 {
      var s' := s[..|s| - 1];
      RemoveAllNoDups(s', excluded);
      assert s[|s| - 1] !in s';
    }
  }

  /** Filtering keeps the order of what remains. */
  lemma {:induction false} RemoveAllKeepsOrder<T(!new)>(d: seq<T>, s: seq<T>, excluded: set<T>)
    requires InFirstOccurrenceOrder(d, s)
    requires forall x :: x in d ==> x in s
    ensures InFirstOccurrenceOrder(RemoveAll(d, excluded), s)
  {
    if |d| > 0 {
      var d', x := d[..|d| - 1], d[|d| - 1];
      assert forall i, j :: 0 <= i < j < |d'| ==> d'[i] == d[i] && d'[j] == d[j];
      RemoveAllKeepsOrder(d', s, excluded);
      var r' := RemoveAll(d', excluded);
      if x !in excluded {
        forall i | 0 <= i < |r'|
          ensures FirstIndex(s, r'[i]) < FirstIndex(s, x)
        {
          assert r'[i] in d';
          var m :| 0 <= m < |d'| && d'[m] == r'[i];
          assert d[m] == r'[i];
        }
      }
    }
  }

  /**
   * A map on sequences that takes the empty sequence to the empty one and
   * extends one element at a time maps a concatenation to the
   * concatenation of the images, so it keeps the order of its input.
   */
  lemma {:induction false} AppendHomomorphic<T, U>(f: seq<T> -> seq<U>, a: seq<T>, b: seq<T>)
    requires f([]) == []
    requires forall s, x :: f(s + [x]) == f(s) + f([x])
    ensures f(a + b) == f(a) + f(b)
    decreases |b|
  {
    if |b| == 0 {
      assert a + b == a;
    } else {
      var init, last := b[..|b| - 1], b[|b| - 1];
      AppendHomomorphic(f, a, init);
      assert a + b == (a + init) + [last];
      assert b == init + [last];
    }
  }
}
