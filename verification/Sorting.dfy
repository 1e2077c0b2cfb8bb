/** Sorting by a strict order: a sorted arrangement of given elements is unique when the order
    tells the elements apart, so it does not depend on where they came from. */
module Sorting {
  /** A strict weak order: nothing precedes what precedes it, and anything falls on one side of
      a comparable pair. */
  ghost predicate StrictWeak<T(!new)>(lt: (T, T) -> bool) {
    && (forall x, y :: Asymmetric(lt, x, y))
    && (forall x, y, z :: Cotransitive(lt, x, y, z))
  }

  ghost predicate Asymmetric<T>(lt: (T, T) -> bool, x: T, y: T) {
    lt(x, y) ==> !lt(y, x)
  }

  ghost predicate Cotransitive<T>(lt: (T, T) -> bool, x: T, y: T, z: T) {
    lt(x, y) ==> lt(x, z) || lt(z, y)
  }

  predicate Sorted<T>(lt: (T, T) -> bool, s: seq<T>) {
    forall i, j :: 0 <= i < j < |s| ==> !lt(s[j], s[i])
  }

  ghost predicate Separates<T>(lt: (T, T) -> bool, s: seq<T>) {
    forall i, j :: 0 <= i < |s| && 0 <= j < |s| && s[i] != s[j] ==> lt(s[i], s[j]) || lt(s[j], s[i])
  }

  function Insert<T>(lt: (T, T) -> bool, x: T, s: seq<T>): seq<T> {
    if s == [] then [x]
    else if lt(x, s[|s| - 1]) then Insert(lt, x, s[..|s| - 1]) + [s[|s| - 1]]
    else s + [x]
  }

  function Sort<T>(lt: (T, T) -> bool, s: seq<T>): seq<T> {
    if s == [] then [] else Insert(lt, s[|s| - 1], Sort(lt, s[..|s| - 1]))
  }

  lemma {:induction false} InsertPermutes<T>(lt: (T, T) -> bool, x: T, s: seq<T>)
    ensures multiset(Insert(lt, x, s)) == multiset(s) + multiset{x}
  {
    if s != [] && lt(x, s[|s| - 1]) {
      InsertPermutes(lt, x, s[..|s| - 1]);
      assert s == s[..|s| - 1] + [s[|s| - 1]];
    }
  }

  lemma {:induction false} InsertSorted<T(!new)>(lt: (T, T) -> bool, x: T, s: seq<T>)
    requires StrictWeak(lt) && Sorted(lt, s)
    ensures Sorted(lt, Insert(lt, x, s))
  {
    if s != [] && lt(x, s[|s| - 1]) {
      var front, last := s[..|s| - 1], s[|s| - 1];
      InsertSorted(lt, x, front);
      InsertPermutes(lt, x, front);
      var r := Insert(lt, x, front);
      assert Asymmetric(lt, x, last);
      forall i | 0 <= i < |r| ensures !lt(last, r[i]) {
        assert r[i] in multiset(front) + multiset{x};
      }
    } else if s != [] {
      forall i | 0 <= i < |s| ensures !lt(x, s[i]) {
        assert Cotransitive(lt, x, s[i], s[|s| - 1]);
      }
    }
  }

  /** `Sort` is a sorted permutation. */
  lemma {:induction false} SortSound<T(!new)>(lt: (T, T) -> bool, s: seq<T>)
    requires StrictWeak(lt)
    ensures Sorted(lt, Sort(lt, s)) && multiset(Sort(lt, s)) == multiset(s)
  {
    if s != [] {
      SortSound(lt, s[..|s| - 1]);
      InsertSorted(lt, s[|s| - 1], Sort(lt, s[..|s| - 1]));
      InsertPermutes(lt, s[|s| - 1], Sort(lt, s[..|s| - 1]));
      assert s == s[..|s| - 1] + [s[|s| - 1]];
    }
  }

  lemma SamePermutationMembers<T>(a: seq<T>, b: seq<T>)
    requires multiset(a) == multiset(b)
    ensures forall x :: x in a <==> x in b
    ensures |a| == |b|
  {
    forall x ensures x in a <==> x in b {
      assert x in a <==> x in multiset(a);
      assert x in b <==> x in multiset(b);
    }
    assert |a| == |multiset(a)| && |b| == |multiset(b)|;
  }

  lemma CountsDistinct<T>(s: seq<T>, i: nat, j: nat)
    requires i < j < |s| && multiset(s)[s[i]] <= 1
    ensures s[i] != s[j]
  {
    assert s == s[..j] + s[j..];
    assert s[..j][i] == s[i] && s[j..][0] == s[j];
    assert s[i] in multiset(s[..j]) && s[j] in multiset(s[j..]);
  }

  lemma TailMultiset<T>(s: seq<T>)
    requires s != []
    ensures multiset(s[1..]) == multiset(s) - multiset{s[0]}
  {
    assert s == [s[0]] + s[1..];
  }

  lemma SameHead<T>(lt: (T, T) -> bool, a: seq<T>, b: seq<T>)
    requires Sorted(lt, a) && Sorted(lt, b) && Separates(lt, a) && a != [] && b != []
    requires a[0] in b && b[0] in a
    ensures a[0] == b[0]
  {
    var i :| 0 <= i < |b| && b[i] == a[0];
    var j :| 0 <= j < |a| && a[j] == b[0];
    assert i > 0 ==> !lt(b[i], b[0]);
    assert j > 0 ==> !lt(a[j], a[0]);
  }

  /** Two sorted arrangements of the same elements are equal. */
  lemma {:induction false} SortedUnique<T>(lt: (T, T) -> bool, a: seq<T>, b: seq<T>)
    requires Sorted(lt, a) && Sorted(lt, b) && multiset(a) == multiset(b) && Separates(lt, a)
    ensures a == b
    decreases |a|
  {
    SamePermutationMembers(a, b);
    if a != [] {
      SameHead(lt, a, b);
      TailMultiset(a);
      TailMultiset(b);
      SortedUnique(lt, a[1..], b[1..]);
      assert a == [a[0]] + a[1..] && b == [b[0]] + b[1..];
    }
  }

  // -------------------------------------------------------------------------------------
  // Strings, compared as Go compares them
  // -------------------------------------------------------------------------------------

  predicate Less(a: string, b: string) {
    if b == [] then false
    else if a == [] then true
    else if a[0] == b[0] then Less(a[1..], b[1..])
    else a[0] < b[0]
  }

  /** `a` and `b` agree up to `k`, where `a` ends first or has the smaller character. */
  predicate DivergesAt(a: string, b: string, k: nat) {
    && k <= |a| && k < |b| && a[..k] == b[..k]
    && (k == |a| || a[k] < b[k])
  }

  /** The order is the dictionary's. */
  lemma {:induction false} LessExactly(a: string, b: string)
    ensures Less(a, b) <==> exists k: nat :: DivergesAt(a, b, k)
  {
    if a != [] && b != [] && a[0] == b[0] {
      LessExactly(a[1..], b[1..]);
      if Less(a, b) {
        var k: nat :| DivergesAt(a[1..], b[1..], k);
        assert a[..k + 1] == [a[0]] + a[1..][..k] && b[..k + 1] == [b[0]] + b[1..][..k];
        assert DivergesAt(a, b, k + 1);
      }
      if k: nat :| DivergesAt(a, b, k) {
        assert k > 0 && a[1..][..k - 1] == a[..k][1..] && b[1..][..k - 1] == b[..k][1..];
        assert DivergesAt(a[1..], b[1..], k - 1);
      }
    } else {
      if Less(a, b) {
        assert DivergesAt(a, b, 0);
      }
      if k: nat :| DivergesAt(a, b, k) {
        assert k > 0 ==> a[..k][0] == b[..k][0];
      }
    }
  }

  lemma {:induction false} LessAsymmetric(a: string, b: string)
    requires Less(a, b)
    ensures !Less(b, a)
  {
    if a != [] && a[0] == b[0] {
      LessAsymmetric(a[1..], b[1..]);
    }
  }

  lemma {:induction false} LessTotal(a: string, b: string)
    requires a != b
    ensures Less(a, b) || Less(b, a)
  {
    if a != [] && b != [] && a[0] == b[0] {
      assert a == [a[0]] + a[1..] && b == [b[0]] + b[1..];
      LessTotal(a[1..], b[1..]);
    }
  }

  lemma {:induction false} LessCotransitive(a: string, b: string, c: string)
    requires Less(a, b)
    ensures Less(a, c) || Less(c, b)
    decreases |a|
  {
    if a != [] && a[0] == b[0] && c != [] && c[0] == a[0] {
      LessCotransitive(a[1..], b[1..], c[1..]);
    }
  }

  lemma LessIsOrder(s: seq<string>)
    ensures StrictWeak(Less) && Separates(Less, s)
  {
    forall x, y ensures Asymmetric(Less, x, y) {
      if Less(x, y) {
        LessAsymmetric(x, y);
      }
    }
    forall x, y, z ensures Cotransitive(Less, x, y, z) {
      if Less(x, y) {
        LessCotransitive(x, y, z);
      }
    }
    forall i, j | 0 <= i < |s| && 0 <= j < |s| && s[i] != s[j] ensures Less(s[i], s[j]) || Less(s[j], s[i]) {
      LessTotal(s[i], s[j]);
    }
  }

  function SortStrings(s: seq<string>): seq<string> {
    Sort(Less, s)
  }

  lemma SortStringsSound(s: seq<string>)
    ensures Sorted(Less, SortStrings(s)) && multiset(SortStrings(s)) == multiset(s)
    ensures |SortStrings(s)| == |s| && forall x :: x in SortStrings(s) <==> x in s
  {
    LessIsOrder(s);
    SortSound(Less, s);
    SamePermutationMembers(SortStrings(s), s);
  }

  /** Any sorted arrangement of the strings is the one `SortStrings` gives. */
  lemma SortStringsUnique(s: seq<string>, t: seq<string>)
    requires Sorted(Less, t) && multiset(t) == multiset(s)
    ensures t == SortStrings(s)
  {
    LessIsOrder(t);
    SortStringsSound(s);
    SortedUnique(Less, t, SortStrings(s));
  }

  /** Placing an element after all it does not precede and before all it does keeps order. */
  lemma InsertedAt<T(!new)>(lt: (T, T) -> bool, s: seq<T>, x: T, j: nat, t: seq<T>)
    requires StrictWeak(lt) && Sorted(lt, s) && j <= |s|
    requires j > 0 ==> !lt(x, s[j - 1])
    requires forall k :: j <= k < |s| ==> lt(x, s[k])
    requires |t| == |s| + 1 && t[j] == x
    requires forall k :: 0 <= k < j ==> t[k] == s[k]
    requires forall k :: j < k < |t| ==> t[k] == s[k - 1]
    ensures Sorted(lt, t)
  {
    forall p, q | 0 <= p < q < |t| ensures !lt(t[q], t[p]) {
      if p < j && q == j {
        assert Cotransitive(lt, x, s[p], s[j - 1]);
      } else if p == j {
        assert Asymmetric(lt, x, s[q - 1]);
      }
    }
  }

  lemma InsertedMultiset<T>(s: seq<T>, x: T, j: nat, t: seq<T>)
    requires j <= |s| && |t| == |s| + 1 && t[j] == x
    requires forall k :: 0 <= k < j ==> t[k] == s[k]
    requires forall k :: j < k < |t| ==> t[k] == s[k - 1]
    ensures multiset(t) == multiset(s + [x])
  {
    assert t == s[..j] + [x] + s[j..];
    assert s == s[..j] + s[j..];
  }

  /** The inner loop: moves element `i` down past those it precedes, by neighbour swaps. */
  method Sink<T>(lt: (T, T) -> bool, a: array<T>, i: nat) returns (j: nat)
    requires i < a.Length
    modifies a
    ensures j <= i && a[j] == old(a[i])
    ensures forall k :: 0 <= k < j || i < k < a.Length ==> a[k] == old(a[k])
    ensures forall k :: j < k <= i ==> a[k] == old(a[k - 1])
    ensures j > 0 ==> !lt(old(a[i]), old(a[j - 1]))
    ensures forall k :: j <= k < i ==> lt(old(a[i]), old(a[k]))
  {
    j := i;
    while j > 0 && lt(a[j], a[j - 1])
      invariant j <= i && a[j] == old(a[i])
      invariant forall k :: 0 <= k < j || i < k < a.Length ==> a[k] == old(a[k])
      invariant forall k :: j < k <= i ==> a[k] == old(a[k - 1])
      invariant forall k :: j <= k < i ==> lt(old(a[i]), old(a[k]))
    {
      a[j - 1], a[j] := a[j], a[j - 1];
      j := j - 1;
    }
  }

  /** What one `Sink` leaves of a list whose first `i` elements were sorted. */
  lemma SinkSorts<T(!new)>(lt: (T, T) -> bool, was: seq<T>, now: seq<T>, i: nat, j: nat)
    requires StrictWeak(lt) && j <= i < |was| == |now| && Sorted(lt, was[..i])
    requires now[j] == was[i]
    requires forall k :: 0 <= k < j || i < k < |now| ==> now[k] == was[k]
    requires forall k :: j < k <= i ==> now[k] == was[k - 1]
    requires j > 0 ==> !lt(was[i], was[j - 1])
    requires forall k :: j <= k < i ==> lt(was[i], was[k])
    ensures Sorted(lt, now[..i + 1]) && multiset(now) == multiset(was)
  {
    InsertedAt(lt, was[..i], was[i], j, now[..i + 1]);
    InsertedMultiset(was[..i], was[i], j, now[..i + 1]);
    assert was == was[..i] + [was[i]] + was[i + 1..];
    assert now == now[..i + 1] + now[i + 1..] && now[i + 1..] == was[i + 1..];
  }

  /** The insertion sort of the portal, in place. */
  method SortInPlace(a: array<string>)
    modifies a
    ensures a[..] == SortStrings(old(a[..]))
  {
    LessIsOrder([]);
    var i := 1;
    while i < a.Length
      invariant 1 <= i && (i <= a.Length || a.Length == 0)
      invariant a.Length > 0 ==> Sorted(Less, a[..i])
      invariant multiset(a[..]) == multiset(old(a[..]))
    {
      ghost var was := a[..];
      var j := Sink(Less, a, i);
      SinkSorts(Less, was, a[..], i, j);
      assert a[..][..i + 1] == a[..i + 1];
      i := i + 1;
    }
    assert a.Length > 0 ==> a[..i] == a[..];
    SortStringsUnique(old(a[..]), a[..]);
  }
}
