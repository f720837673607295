/**
 * List operations the memory layers build on: Python's list comprehension
 * filter, the append-if-absent loops of the accessors, and `list.remove`.
 */
module Lists {

  /** No element occurs twice. */
  predicate NoDup<T(==,!new)>(s: seq<T>)
  {
    forall i, j :: 0 <= i < j < |s| ==> s[i] != s[j]
  }

  /** No two elements share a key. */
  predicate DistinctBy<T, K(==)>(key: T -> K, s: seq<T>)
  {
    forall i, j :: 0 <= i < j < |s| ==> key(s[i]) != key(s[j])
  }

  /** Python's `[x for x in s if keep(x)]`. */
  function Filter<T(==,!new)>(keep: T -> bool, s: seq<T>): (r: seq<T>)
    ensures |r| <= |s|
    ensures forall x :: x in r <==> x in s && keep(x)
    decreases |s|
  {
    if s == [] then []
    else
      var last := s[|s| - 1];
      Filter(keep, s[..|s| - 1]) + (if keep(last) then [last] else [])
  }

  /** Extending a prefix by one element. */
  lemma TakeOneMore<T>(s: seq<T>, i: nat)
    requires i < |s|
    ensures s[..i + 1] == s[..i] + [s[i]]
    ensures s[..i + 1][..i] == s[..i] && s[..i + 1][i] == s[i]
  {
  }

  /** In a list without duplicates, an element does not occur before its own position. */
  lemma NoDupNotBefore<T(!new)>(s: seq<T>, i: nat)
    requires NoDup(s) && i < |s|
    ensures s[i] !in s[..i]
  {
    forall j | 0 <= j < i
      ensures s[..i][j] != s[i]
    {
      assert s[..i][j] == s[j];
    }
  }

  /** A list without duplicates has as many elements as its set. */
  lemma {:induction false} NoDupCardinality<T(!new)>(s: seq<T>)
    requires NoDup(s)
    ensures |(set x | x in s)| == |s|
    decreases |s|
  {
    if s != [] {
      var s' := s[..|s| - 1];
      var last := s[|s| - 1];
      NoDupCardinality(s');
      assert last !in s' by {
        forall i | 0 <= i < |s'|
          ensures s'[i] != last
        {
          assert s'[i] == s[i];
        }
      }
      assert (set x | x in s) == (set x | x in s') + {last};
    }
  }

  /**
   * The append-if-absent loop of `add_requirements` and `add_texts`: each
   * element of `ys`, in order, is appended to `xs` unless the list being
   * built already holds it.
   */
  function AppendAbsent<T(==,!new)>(xs: seq<T>, ys: seq<T>): (r: seq<T>)
    ensures |xs| <= |r| && r[..|xs|] == xs
    ensures forall z :: z in r <==> z in xs || z in ys
    ensures forall i :: |xs| <= i < |r| ==> r[i] !in xs
    ensures forall i, j :: |xs| <= i < j < |r| ==> r[i] != r[j]
    ensures NoDup(xs) ==> NoDup(r)
    decreases |ys|
  {
    if ys == [] then xs
    else
      var p := AppendAbsent(xs, ys[..|ys| - 1]);
      var y := ys[|ys| - 1];
      assert forall z :: z in ys <==> z in ys[..|ys| - 1] || z == y;
      if y in p then p else p + [y]
  }

  /** One more element of `ys`: the step the append-if-absent loop takes at position `i`. */
  lemma AppendAbsentStep<T(!new)>(xs: seq<T>, ys: seq<T>, i: nat)
    requires i < |ys|
    ensures var p := AppendAbsent(xs, ys[..i]);
      AppendAbsent(xs, ys[..i + 1]) == if ys[i] in p then p else p + [ys[i]]
  {
    TakeOneMore(ys, i);
  }

  /**
   * The append-if-absent loop itself: `for y in ys: if y not in xs:
   * xs.append(y); changed = True`, on a local copy of `xs`.
   */
  method AppendMissing<T(==,!new)>(xs: seq<T>, ys: seq<T>) returns (r: seq<T>, changed: bool)
    ensures r == AppendAbsent(xs, ys)
    ensures changed <==> exists y :: y in ys && y !in xs
  {
    r := xs;
    changed := false;
    var i := 0;
    while i < |ys|
      invariant 0 <= i <= |ys|
      invariant r == AppendAbsent(xs, ys[..i])
      invariant changed <==> |r| > |xs|
    {
      AppendAbsentStep(xs, ys, i);
      if ys[i] !in r {
        r := r + [ys[i]];
        changed := true;
      }
      i := i + 1;
    }
    assert ys[..i] == ys;
    AppendAbsentGrows(xs, ys);
  }

  /** Position of the first occurrence of `x` in `s`. */
  function IndexOf<T(==,!new)>(s: seq<T>, x: T): (k: nat)
    requires x in s
    ensures k < |s| && s[k] == x && x !in s[..k]
  {
    if s[0] == x then 0 else 1 + IndexOf(s[1..], x)
  }

  /** When every element of `ys` is already present, nothing is appended. */
  lemma {:induction false} AppendAbsentPresent<T(!new)>(xs: seq<T>, ys: seq<T>)
    requires forall y :: y in ys ==> y in xs
    ensures AppendAbsent(xs, ys) == xs
    decreases |ys|
  {
    if ys != [] {
      assert forall y :: y in ys[..|ys| - 1] ==> y in ys;
      AppendAbsentPresent(xs, ys[..|ys| - 1]);
    }
  }

  /** Repeating an append-if-absent with the same elements changes nothing. */
  lemma AppendAbsentIdempotent<T(!new)>(xs: seq<T>, ys: seq<T>)
    ensures AppendAbsent(AppendAbsent(xs, ys), ys) == AppendAbsent(xs, ys)
  {
    AppendAbsentPresent(AppendAbsent(xs, ys), ys);
  }

  /** Something is appended exactly when some element of `ys` is missing from `xs`. */
  lemma AppendAbsentGrows<T(!new)>(xs: seq<T>, ys: seq<T>)
    ensures |AppendAbsent(xs, ys)| > |xs| <==> exists y :: y in ys && y !in xs
  {
    var r := AppendAbsent(xs, ys);
    if y :| y in ys && y !in xs {
      assert y in r;
    }
    if |r| > |xs| {
      assert r[|xs|] in r;
    }
  }

  /** Python's `list.remove(x)`: drop the first occurrence of `x`. */
  function RemoveFirst<T(==,!new)>(s: seq<T>, x: T): (r: seq<T>)
    requires x in s
    ensures |r| == |s| - 1
    ensures multiset(r) == multiset(s) - multiset{x}
    ensures r == s[..IndexOf(s, x)] + s[IndexOf(s, x) + 1..]
  {
    var k := IndexOf(s, x);
    assert s == s[..k] + [x] + s[k + 1..];
    s[..k] + s[k + 1..]
  }

  /** In a list without duplicates, `remove` takes `x` out and nothing else. */
  lemma RemoveFirstNoDup<T(!new)>(s: seq<T>, x: T)
    requires x in s && NoDup(s)
    ensures NoDup(RemoveFirst(s, x))
    ensures forall y :: y in RemoveFirst(s, x) <==> y in s && y != x
  {
    var k := IndexOf(s, x);
    var r := RemoveFirst(s, x);
    assert Shifted: forall i :: 0 <= i < |r| ==> r[i] == if i < k then s[i] else s[i + 1];
    forall i, j | 0 <= i < j < |r|
      ensures r[i] != r[j]
    {
      var i', j' := if i < k then i else i + 1, if j < k then j else j + 1;
      assert r[i] == s[i'] && r[j] == s[j'];
    }
    forall y | y in r
      ensures y in s && y != x
    {
      var i :| 0 <= i < |r| && r[i] == y;
      var i' := if i < k then i else i + 1;
      assert s[i'] == y && i' != k;
    }
    forall y | y in s && y != x
      ensures y in r
    {
      var m :| 0 <= m < |s| && s[m] == y;
      var m' := if m < k then m else m - 1;
      assert r[m'] == y;
    }
  }
}
