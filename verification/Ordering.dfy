// Comparison callbacks in the style of C: negative, zero or positive.
module Ordering {
  // Names the elements a law is to be used for.
  ghost predicate Case<T>(a: T, b: T, c: T) { true }

  // The callback orders the elements: swapping its arguments flips its sign,
  // and "not above" is transitive. Different elements may compare equal.
  ghost predicate IsComparator<T(!new)>(cmp: (T, T) -> int) {
    forall a, b, c {:trigger Case(a, b, c)} :: Case(a, b, c) ==>
      && (cmp(a, b) < 0 <==> cmp(b, a) > 0)
      && (cmp(a, b) <= 0 && cmp(b, c) <= 0 ==> cmp(a, c) <= 0)
  }

  lemma Transitive<T(!new)>(cmp: (T, T) -> int, a: T, b: T, c: T)
    requires IsComparator(cmp)
    ensures cmp(a, a) == 0
    ensures cmp(a, b) < 0 <==> cmp(b, a) > 0
    ensures cmp(a, b) == 0 <==> cmp(b, a) == 0
    ensures cmp(a, b) == 0 && cmp(b, c) == 0 ==> cmp(a, c) == 0
    ensures cmp(a, b) <= 0 && cmp(b, c) <= 0 ==> cmp(a, c) <= 0
    ensures cmp(a, b) < 0 && cmp(b, c) <= 0 ==> cmp(a, c) < 0
    ensures cmp(a, b) <= 0 && cmp(b, c) < 0 ==> cmp(a, c) < 0
  {
    assert Case(a, a, a) && Case(a, b, c) && Case(b, a, a) && Case(b, c, a) && Case(c, a, b) && Case(a, c, b)
           && Case(c, b, a);
  }

  // Strictly increasing.
  ghost predicate Ascending<T>(cmp: (T, T) -> int, s: seq<T>) {
    forall i, j :: 0 <= i < j < |s| ==> cmp(s[i], s[j]) < 0
  }

  // Never decreasing.
  ghost predicate Sorted<T>(cmp: (T, T) -> int, s: seq<T>) {
    forall i, j :: 0 <= i < j < |s| ==> cmp(s[i], s[j]) <= 0
  }

  // ------------------------------------------- sets kept as ascending sequences

  ghost predicate Contains<T>(cmp: (T, T) -> int, s: seq<T>, k: T) {
    exists i :: 0 <= i < |s| && cmp(k, s[i]) == 0
  }

  // The place in s where k is or belongs.
  ghost predicate Place<T>(cmp: (T, T) -> int, s: seq<T>, k: T, i: int) {
    && 0 <= i <= |s|
    && (forall j :: 0 <= j < i ==> cmp(k, s[j]) > 0)
    && (forall j :: i <= j < |s| ==> cmp(k, s[j]) <= 0)
    && (forall j :: i < j < |s| ==> cmp(k, s[j]) < 0)
  }

  ghost function PlaceOf<T>(cmp: (T, T) -> int, s: seq<T>, k: T): (i: int)
    ensures 0 <= i <= |s|
  {
    if s != [] && cmp(k, s[0]) > 0 then 1 + PlaceOf(cmp, s[1..], k) else 0
  }

  ghost predicate Hits<T>(cmp: (T, T) -> int, s: seq<T>, k: T) {
    PlaceOf(cmp, s, k) < |s| && cmp(k, s[PlaceOf(cmp, s, k)]) == 0
  }

  ghost function Added<T>(cmp: (T, T) -> int, s: seq<T>, k: T): seq<T> {
    var i := PlaceOf(cmp, s, k);
    if Hits(cmp, s, k) then s else s[..i] + [k] + s[i..]
  }

  ghost function Removed<T>(cmp: (T, T) -> int, s: seq<T>, k: T): seq<T> {
    var i := PlaceOf(cmp, s, k);
    if Hits(cmp, s, k) then s[..i] + s[i + 1..] else s
  }

  lemma {:induction false} PlaceOfIsPlace<T(!new)>(cmp: (T, T) -> int, s: seq<T>, k: T)
    requires IsComparator(cmp) && Ascending(cmp, s)
    ensures Place(cmp, s, k, PlaceOf(cmp, s, k))
  {
    if s != [] && cmp(k, s[0]) > 0 {
      PlaceOfIsPlace(cmp, s[1..], k);
      var i := PlaceOf(cmp, s[1..], k);
      forall j | 0 <= j < |s|
        ensures j <= i ==> cmp(k, s[j]) > 0
        ensures j > i ==> cmp(k, s[j]) <= 0
        ensures j > i + 1 ==> cmp(k, s[j]) < 0
      {
        if j > 0 { assert s[j] == s[1..][j - 1]; }
      }
    } else {
      forall j | 0 < j < |s|
        ensures cmp(k, s[j]) < 0
      {
        Transitive(cmp, k, s[0], s[j]);
      }
    }
  }

  // There is only one such place.
  lemma PlaceIsUnique<T(!new)>(cmp: (T, T) -> int, s: seq<T>, k: T, i: int)
    requires IsComparator(cmp) && Ascending(cmp, s) && Place(cmp, s, k, i)
    ensures i == PlaceOf(cmp, s, k)
  {
    PlaceOfIsPlace(cmp, s, k);
    var f := PlaceOf(cmp, s, k);
    var atI, atF := if i < |s| then cmp(k, s[i]) else 0, if f < |s| then cmp(k, s[f]) else 0;
    assert i <= f || f < i;
  }

  lemma HitsIffContains<T(!new)>(cmp: (T, T) -> int, s: seq<T>, k: T)
    requires IsComparator(cmp) && Ascending(cmp, s)
    ensures Hits(cmp, s, k) <==> Contains(cmp, s, k)
  {
    PlaceOfIsPlace(cmp, s, k);
  }

  lemma AddedAscends<T(!new)>(cmp: (T, T) -> int, s: seq<T>, k: T)
    requires IsComparator(cmp) && Ascending(cmp, s)
    ensures Ascending(cmp, Added(cmp, s, k))
  {
    PlaceOfIsPlace(cmp, s, k);
    var i, t := PlaceOf(cmp, s, k), Added(cmp, s, k);
    if !Hits(cmp, s, k) {
      forall a, b | 0 <= a < b < |t|
        ensures cmp(t[a], t[b]) < 0
      {
        if b == i { Transitive(cmp, s[a], k, k); }
      }
    }
  }

  lemma AddedKeeps<T(!new)>(cmp: (T, T) -> int, s: seq<T>, k: T, x: T)
    requires IsComparator(cmp) && Ascending(cmp, s)
    requires Contains(cmp, s, x) || cmp(x, k) == 0
    ensures Contains(cmp, Added(cmp, s, k), x)
  {
    PlaceOfIsPlace(cmp, s, k);
    var i, t := PlaceOf(cmp, s, k), Added(cmp, s, k);
    if cmp(x, k) == 0 {
      if Hits(cmp, s, k) {
        Transitive(cmp, x, k, s[i]);
        assert t[i] == s[i];
      } else {
        assert t[i] == k;
      }
    } else {
      var j :| 0 <= j < |s| && cmp(x, s[j]) == 0;
      assert t[if Hits(cmp, s, k) || j < i then j else j + 1] == s[j];
    }
  }

  lemma AddedAddsOnly<T(!new)>(cmp: (T, T) -> int, s: seq<T>, k: T, x: T)
    requires Contains(cmp, Added(cmp, s, k), x) && !Hits(cmp, s, k) && cmp(x, k) != 0
    ensures Contains(cmp, s, x)
  {
    var i, t := PlaceOf(cmp, s, k), Added(cmp, s, k);
    var j :| 0 <= j < |t| && cmp(x, t[j]) == 0;
    assert t[j] == if j < i then s[j] else if j == i then k else s[j - 1];
  }

  lemma AddedIsSet<T(!new)>(cmp: (T, T) -> int, s: seq<T>, k: T, x: T)
    requires IsComparator(cmp) && Ascending(cmp, s)
    ensures Ascending(cmp, Added(cmp, s, k))
    ensures Contains(cmp, Added(cmp, s, k), x) <==> Contains(cmp, s, x) || cmp(x, k) == 0
  {
    AddedAscends(cmp, s, k);
    if Contains(cmp, s, x) || cmp(x, k) == 0 {
      AddedKeeps(cmp, s, k, x);
    } else if Contains(cmp, Added(cmp, s, k), x) {
      if !Hits(cmp, s, k) { AddedAddsOnly(cmp, s, k, x); }
    }
  }

  lemma RemovedAscends<T>(cmp: (T, T) -> int, s: seq<T>, k: T)
    requires Ascending(cmp, s)
    ensures Ascending(cmp, Removed(cmp, s, k))
  {
  }

  lemma RemovedIsSet<T(!new)>(cmp: (T, T) -> int, s: seq<T>, k: T, x: T)
    requires IsComparator(cmp) && Ascending(cmp, s)
    ensures Ascending(cmp, Removed(cmp, s, k))
    ensures Contains(cmp, Removed(cmp, s, k), x) <==> Contains(cmp, s, x) && cmp(x, k) != 0
  {
    PlaceOfIsPlace(cmp, s, k);
    var i, t := PlaceOf(cmp, s, k), Removed(cmp, s, k);
    if Contains(cmp, s, x) && cmp(x, k) != 0 {
      var j :| 0 <= j < |s| && cmp(x, s[j]) == 0;
      if Hits(cmp, s, k) {
        if j == i {
          Transitive(cmp, x, s[i], k);
          Transitive(cmp, k, s[i], k);
        }
        assert t[if j < i then j else j - 1] == s[j];
      }
    }
    if Contains(cmp, t, x) {
      var j :| 0 <= j < |t| && cmp(x, t[j]) == 0;
      var j' := if Hits(cmp, s, k) && j >= i then j + 1 else j;
      assert t[j] == s[j'];
      assert cmp(k, s[j']) != 0;
      if cmp(x, k) == 0 {
        Transitive(cmp, k, x, s[j']);
        Transitive(cmp, x, k, k);
      }
    }
  }

  // ------------------------------------------------------------------ search

  // All that compares equal to k lies in s[lo..hi].
  ghost predicate Within<T>(cmp: (T, T) -> int, s: seq<T>, k: T, lo: int, hi: int) {
    && 0 <= lo <= hi <= |s|
    && (forall j :: 0 <= j < lo ==> cmp(k, s[j]) > 0)
    && (forall j :: hi <= j < |s| ==> cmp(k, s[j]) < 0)
  }

  // One comparison narrows the range or ends the search.
  lemma Narrow<T(!new)>(cmp: (T, T) -> int, s: seq<T>, k: T, lo: int, hi: int, i: int)
    requires IsComparator(cmp) && Ascending(cmp, s) && Within(cmp, s, k, lo, hi) && lo <= i < hi
    ensures cmp(k, s[i]) < 0 ==> Within(cmp, s, k, lo, i)
    ensures cmp(k, s[i]) > 0 ==> Within(cmp, s, k, i + 1, hi)
    ensures cmp(k, s[i]) == 0 ==> PlaceOf(cmp, s, k) == i && Hits(cmp, s, k)
  {
    forall j | 0 <= j < |s|
      ensures cmp(k, s[i]) <= 0 && i < j ==> cmp(k, s[j]) < 0
      ensures cmp(k, s[i]) >= 0 && j < i ==> cmp(k, s[j]) > 0
    {
      Transitive(cmp, k, s[i], s[j]);
      Transitive(cmp, s[j], s[i], k);
      Transitive(cmp, s[i], k, k);
      Transitive(cmp, s[j], k, k);
    }
    if cmp(k, s[i]) == 0 { PlaceIsUnique(cmp, s, k, i); }
  }

  lemma Missed<T(!new)>(cmp: (T, T) -> int, s: seq<T>, k: T, i: int)
    requires IsComparator(cmp) && Ascending(cmp, s) && Within(cmp, s, k, i, i)
    ensures PlaceOf(cmp, s, k) == i && !Hits(cmp, s, k)
  {
    PlaceIsUnique(cmp, s, k, i);
  }

  // --------------------------------------------------------- runs of updates

  datatype Update<T> = Add(data: T) | Del(data: T)

  ghost function Step<T>(cmp: (T, T) -> int, s: seq<T>, u: Update<T>): seq<T> {
    match u
    case Add(d) => Added(cmp, s, d)
    case Del(d) => Removed(cmp, s, d)
  }

  ghost function Run<T>(cmp: (T, T) -> int, s: seq<T>, us: seq<Update<T>>): seq<T>
    decreases |us|
  {
    if us == [] then s else Step(cmp, Run(cmp, s, us[..|us| - 1]), us[|us| - 1])
  }

  // What a set holds after the updates: the last one about x decides.
  ghost predicate Member<T>(cmp: (T, T) -> int, s: seq<T>, us: seq<Update<T>>, x: T)
    decreases |us|
  {
    if us == [] then Contains(cmp, s, x) else
      var u := us[|us| - 1];
      if cmp(x, u.data) == 0 then u.Add? else Member(cmp, s, us[..|us| - 1], x)
  }

  lemma {:induction false} RunAscends<T(!new)>(cmp: (T, T) -> int, s: seq<T>, us: seq<Update<T>>)
    requires IsComparator(cmp) && Ascending(cmp, s)
    ensures Ascending(cmp, Run(cmp, s, us))
    decreases |us|
  {
    if us != [] {
      RunAscends(cmp, s, us[..|us| - 1]);
      var t, u := Run(cmp, s, us[..|us| - 1]), us[|us| - 1];
      AddedAscends(cmp, t, u.data);
      RemovedAscends(cmp, t, u.data);
    }
  }

  // After any run of updates a search answers as a set would.
  lemma {:induction false} RunIsSet<T(!new)>(cmp: (T, T) -> int, s: seq<T>, us: seq<Update<T>>, x: T)
    requires IsComparator(cmp) && Ascending(cmp, s)
    ensures Hits(cmp, Run(cmp, s, us), x) <==> Member(cmp, s, us, x)
    decreases |us|
  {
    RunAscends(cmp, s, us);
    HitsIffContains(cmp, Run(cmp, s, us), x);
    if us != [] {
      var t, u := Run(cmp, s, us[..|us| - 1]), us[|us| - 1];
      RunAscends(cmp, s, us[..|us| - 1]);
      RunIsSet(cmp, s, us[..|us| - 1], x);
      HitsIffContains(cmp, t, x);
      AddedIsSet(cmp, t, u.data, x);
      RemovedIsSet(cmp, t, u.data, x);
    }
  }
}
