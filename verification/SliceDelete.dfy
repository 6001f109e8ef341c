/**
  Deleting from a Go slice while ranging over it:

      for i, v := range list { if hit(v) { list = append(list[:i], list[i+1:]...) } }

  The range keeps the old header, so it visits as many slots as there were at the
  start, in a backing array that each deletion shifts to the left.
 */
module SliceDelete {
  import opened Common

  /** A slice header over its backing array; the slots past `len` are spare or stale. */
  datatype Slice<T> = Slice(slots: seq<T>, len: nat)

  predicate Fits<T>(s: Slice<T>) {
    s.len <= |s.slots|
  }

  function Content<T>(s: Slice<T>): seq<T>
    requires Fits(s)
  {
    s.slots[..s.len]
  }

  /** append(s[:i], s[i+1:]...): None when the bounds check panics. */
  function Cut<T>(s: Slice<T>, i: nat): Option<Slice<T>>
    requires Fits(s)
  {
    if i + 1 > s.len then None
    else Some(Slice(s.slots[..i] + s.slots[i + 1..s.len] + s.slots[s.len - 1..], s.len - 1))
  }

  /** The loop from slot `i` on, for a range that started with `n` elements. */
  function Delete<T>(s: Slice<T>, i: nat, n: nat, hit: T -> bool): Option<Slice<T>>
    requires Fits(s) && i <= n <= |s.slots|
    decreases n - i
  {
    if i == n then Some(s)
    else if !hit(s.slots[i]) then Delete(s, i + 1, n, hit)
    else
      match Cut(s, i)
      case None => None
      case Some(s') => Delete(s', i + 1, n, hit)
  }

  function Filter<T>(xs: seq<T>, hit: T -> bool): seq<T> {
    if xs == [] then []
    else if hit(xs[0]) then Filter(xs[1..], hit)
    else [xs[0]] + Filter(xs[1..], hit)
  }

  /** A hit is dropped and the element after it is kept without being looked at. */
  function Kept<T>(xs: seq<T>, hit: T -> bool): seq<T> {
    if xs == [] then []
    else if !hit(xs[0]) then [xs[0]] + Kept(xs[1..], hit)
    else if |xs| == 1 then []
    else [xs[1]] + Kept(xs[2..], hit)
  }

  predicate Pair<T>(xs: seq<T>, hit: T -> bool, j: int) {
    0 < j < |xs| && hit(xs[j - 1]) && hit(xs[j])
  }

  ghost predicate Adjacent<T>(xs: seq<T>, hit: T -> bool) {
    exists j :: Pair(xs, hit, j)
  }

  /** The last element is a hit and not the first one. */
  ghost predicate LateHit<T>(xs: seq<T>, hit: T -> bool) {
    xs != [] && hit(xs[|xs| - 1]) && exists j :: 0 <= j < |xs| - 1 && hit(xs[j])
  }

  /** What the slots still to be visited hold after `r` deletions. */
  ghost predicate Shifted<T>(s: Slice<T>, i: nat, xs: seq<T>, r: nat) {
    && Fits(s) && i <= |xs| <= |s.slots| && s.len + r == |xs|
    && forall k :: i <= k < |xs| ==> s.slots[k] == xs[if k + r < |xs| then k + r else |xs| - 1]
  }

  lemma CutShifts<T>(s: Slice<T>, i: nat, xs: seq<T>, r: nat)
    requires Shifted(s, i, xs, r) && i + r < |xs|
    ensures Fits(s) && |xs| <= |s.slots| && s.slots[i] == xs[i + r]
    ensures Cut(s, i).Some? && Shifted(Cut(s, i).value, i + 1, xs, r + 1)
    ensures Cut(s, i).value.slots[..i] == s.slots[..i]
    ensures i + r + 1 < |xs| ==> Cut(s, i).value.slots[i] == xs[i + r + 1]
  {
    var s' := Cut(s, i).value;
    assert forall k :: i <= k < s.len - 1 ==> s'.slots[k] == s.slots[k + 1];
    assert forall k :: s.len - 1 <= k < |xs| ==> s'.slots[k] == s.slots[k];
  }

  lemma KeptStep<T>(xs: seq<T>, d: nat, hit: T -> bool)
    requires d < |xs|
    ensures Kept(xs[d..], hit) ==
              (if !hit(xs[d]) then [xs[d]] + Kept(xs[d + 1..], hit)
               else if d + 1 == |xs| then []
               else [xs[d + 1]] + Kept(xs[d + 2..], hit))
  {
    assert xs[d..][1..] == xs[d + 1..];
    if d + 1 < |xs| {
      assert xs[d..][2..] == xs[d + 2..];
    }
  }

  /** The loop from slot `i` on ends well and leaves `front` followed by `rest`. */
  ghost predicate Leaves<T>(s: Slice<T>, i: nat, n: nat, hit: T -> bool, front: seq<T>, rest: seq<T>) {
    && Fits(s) && i <= n <= |s.slots|
    && var r := Delete(s, i, n, hit);
    r.Some? && Fits(r.value) && Content(r.value) == front + rest
  }

  lemma MissStep<T>(s: Slice<T>, i: nat, n: nat, hit: T -> bool, rest: seq<T>)
    requires Fits(s) && i < n <= |s.slots| && !hit(s.slots[i])
    requires Leaves(s, i + 1, n, hit, s.slots[..i + 1], rest)
    ensures Leaves(s, i, n, hit, s.slots[..i], [s.slots[i]] + rest)
  {
    assert s.slots[..i + 1] + rest == s.slots[..i] + ([s.slots[i]] + rest);
  }

  lemma HitStep<T>(s: Slice<T>, i: nat, n: nat, hit: T -> bool, rest: seq<T>)
    requires Fits(s) && i < n <= |s.slots| && hit(s.slots[i]) && Cut(s, i).Some?
    requires var s' := Cut(s, i).value; Leaves(s', i + 1, n, hit, s'.slots[..i + 1], rest)
    ensures var s' := Cut(s, i).value; Leaves(s, i, n, hit, s.slots[..i], [s'.slots[i]] + rest)
  {
    var s' := Cut(s, i).value;
    assert s'.slots[..i + 1] + rest == s.slots[..i] + ([s'.slots[i]] + rest);
  }

  lemma LastStep<T>(s: Slice<T>, i: nat, hit: T -> bool)
    requires Fits(s) && i + 1 == s.len && hit(s.slots[i])
    ensures Leaves(s, i, s.len, hit, s.slots[..i], [])
  {
    var s' := Cut(s, i).value;
    assert Delete(s', i + 1, i + 1, hit) == Some(s');
    assert Content(s') == s.slots[..i] + [];
  }

  /** Deletions already made, or a last element that is a hit, leave no late hit ahead. */
  ghost predicate Calm<T>(xs: seq<T>, r: nat, hit: T -> bool) {
    xs != [] && hit(xs[|xs| - 1]) ==> r == 0 && !LateHit(xs, hit)
  }

  /** Without a late hit the loop ends well, with the kept elements. */
  lemma {:induction false} DeleteKeeps<T>(s: Slice<T>, i: nat, xs: seq<T>, r: nat, hit: T -> bool)
    requires Shifted(s, i, xs, r) && Calm(xs, r, hit) && i + r <= |xs|
    ensures Leaves(s, i, |xs|, hit, s.slots[..i], Kept(xs[i + r..], hit))
    decreases |xs| - i, 1
  {
    if i + r == |xs| {
      KeepsAtEnd(s, i, xs, r, hit);
    } else if hit(xs[i + r]) {
      KeepsAtHit(s, i, xs, r, hit);
    } else {
      KeepsAtMiss(s, i, xs, r, hit);
    }
  }

  lemma KeepsAtEnd<T>(s: Slice<T>, i: nat, xs: seq<T>, r: nat, hit: T -> bool)
    requires Shifted(s, i, xs, r) && Calm(xs, r, hit) && i + r == |xs|
    ensures Leaves(s, i, |xs|, hit, s.slots[..i], Kept(xs[i + r..], hit))
  {
    if r > 0 {
      StaleTail(s, i, xs, r, hit);
    }
    assert Content(s) == s.slots[..i] + [];
  }

  lemma MissFacts<T>(s: Slice<T>, i: nat, xs: seq<T>, r: nat, hit: T -> bool)
    requires Shifted(s, i, xs, r) && i + r < |xs|
    ensures Fits(s) && i < |xs| <= |s.slots| && s.slots[i] == xs[i + r] && Shifted(s, i + 1, xs, r)
  {
  }

  lemma {:induction false} KeepsAtMiss<T>(s: Slice<T>, i: nat, xs: seq<T>, r: nat, hit: T -> bool)
    requires Shifted(s, i, xs, r) && Calm(xs, r, hit) && i + r < |xs| && !hit(xs[i + r])
    ensures Leaves(s, i, |xs|, hit, s.slots[..i], Kept(xs[i + r..], hit))
    decreases |xs| - i, 0
  {
    hide *;
    MissFacts(s, i, xs, r, hit);
    KeptStep(xs, i + r, hit);
    DeleteKeeps(s, i + 1, xs, r, hit);
    assert i + 1 + r == i + r + 1;
    MissStep(s, i, |xs|, hit, Kept(xs[i + 1 + r..], hit));
  }

  lemma HitFacts<T>(s: Slice<T>, i: nat, xs: seq<T>, r: nat, hit: T -> bool)
    requires Shifted(s, i, xs, r) && Calm(xs, r, hit) && i + r + 1 < |xs| && hit(xs[i + r])
    ensures Calm(xs, r + 1, hit)
  {
  }

  lemma {:induction false} KeepsAtHit<T>(s: Slice<T>, i: nat, xs: seq<T>, r: nat, hit: T -> bool)
    requires Shifted(s, i, xs, r) && Calm(xs, r, hit) && i + r < |xs| && hit(xs[i + r])
    ensures Leaves(s, i, |xs|, hit, s.slots[..i], Kept(xs[i + r..], hit))
    decreases |xs| - i, 0
  {
    hide *;
    MissFacts(s, i, xs, r, hit);
    KeptStep(xs, i + r, hit);
    CutShifts(s, i, xs, r);
    if i + r == |xs| - 1 {
      LastHit(s, i, xs, r, hit);
    } else {
      HitFacts(s, i, xs, r, hit);
      DeleteKeeps(Cut(s, i).value, i + 1, xs, r + 1, hit);
      assert i + 1 + (r + 1) == i + r + 2;
      HitStep(s, i, |xs|, hit, Kept(xs[i + r + 2..], hit));
    }
  }

  lemma LastHit<T>(s: Slice<T>, i: nat, xs: seq<T>, r: nat, hit: T -> bool)
    requires Shifted(s, i, xs, r) && Calm(xs, r, hit) && i + r + 1 == |xs| && hit(xs[i + r])
    ensures Leaves(s, i, |xs|, hit, s.slots[..i], [])
  {
    LastStep(s, i, hit);
  }

  /** Once every element has been seen, only copies of the last one are left to visit. */
  lemma {:induction false} StaleTail<T>(s: Slice<T>, i: nat, xs: seq<T>, r: nat, hit: T -> bool)
    requires Shifted(s, i, xs, r) && i + r >= |xs| && r > 0 && xs != []
    ensures !hit(xs[|xs| - 1]) ==> Delete(s, i, |xs|, hit) == Some(s)
    ensures hit(xs[|xs| - 1]) && i < |xs| ==> Delete(s, i, |xs|, hit) == None
    decreases |xs| - i
  {
    if i < |xs| {
      StaleTail(s, i + 1, xs, r, hit);
    }
  }

  /** A late hit is visited again in the stale slots, where deleting it panics. */
  lemma {:induction false} DeletePanics<T>(s: Slice<T>, i: nat, xs: seq<T>, r: nat, hit: T -> bool)
    requires Shifted(s, i, xs, r) && i < |xs| && hit(xs[|xs| - 1])
    requires r > 0 || exists j :: i <= j < |xs| - 1 && hit(xs[j])
    ensures Delete(s, i, |xs|, hit) == None
    decreases |xs| - i
  {
    var n := |xs|;
    if i + r >= n {
      StaleTail(s, i, xs, r, hit);
    } else if !hit(s.slots[i]) {
      DeletePanics(s, i + 1, xs, r, hit);
    } else {
      CutShifts(s, i, xs, r);
      DeletePanics(Cut(s, i).value, i + 1, xs, r + 1, hit);
    }
  }

  lemma {:induction false} FilterHasNoHit<T>(xs: seq<T>, hit: T -> bool)
    ensures forall x :: x in Filter(xs, hit) ==> !hit(x)
  {
    if xs != [] {
      FilterHasNoHit(xs[1..], hit);
    }
  }

  lemma {:induction false} KeptExact<T>(xs: seq<T>, hit: T -> bool)
    ensures Kept(xs, hit) == Filter(xs, hit) <==> !Adjacent(xs, hit)
  {
    FilterHasNoHit(xs, hit);
    if |xs| > 1 {
      if !hit(xs[0]) {
        KeptExact(xs[1..], hit);
        AdjacentDrop(xs, 1, hit);
        assert ([xs[0]] + Kept(xs[1..], hit))[1..] == Kept(xs[1..], hit);
        assert ([xs[0]] + Filter(xs[1..], hit))[1..] == Filter(xs[1..], hit);
      } else if hit(xs[1]) {
        assert Kept(xs, hit)[0] == xs[1];
        assert xs[1] in Kept(xs, hit);
        assert Pair(xs, hit, 1);
      } else {
        KeptExact(xs[2..], hit);
        AdjacentDrop(xs, 2, hit);
        assert xs[1..][1..] == xs[2..];
        assert ([xs[1]] + Kept(xs[2..], hit))[1..] == Kept(xs[2..], hit);
        assert ([xs[1]] + Filter(xs[2..], hit))[1..] == Filter(xs[2..], hit);
      }
    }
  }

  lemma PairDrop<T>(xs: seq<T>, d: nat, hit: T -> bool, j: int)
    requires d <= |xs|
    ensures Pair(xs[d..], hit, j) <==> j > 0 && Pair(xs, hit, d + j)
  {
  }

  lemma AdjacentDrop<T>(xs: seq<T>, d: nat, hit: T -> bool)
    requires 0 < d <= |xs| && d <= 2 && !hit(xs[d - 1])
    ensures Adjacent(xs, hit) <==> Adjacent(xs[d..], hit)
  {
    if Adjacent(xs[d..], hit) {
      var j :| Pair(xs[d..], hit, j);
      PairDrop(xs, d, hit, j);
    }
    if Adjacent(xs, hit) {
      var j :| Pair(xs, hit, j);
      PairDrop(xs, d, hit, j - d);
    }
  }

  /**
    For every list: the loop panics exactly on a late hit, otherwise leaves the
    kept elements, and equals the intended filter exactly when in addition no two
    neighbours are hits.
   */
  lemma DeleteExact<T>(s: Slice<T>, hit: T -> bool)
    requires Fits(s)
    ensures var xs := Content(s); var r := Delete(s, 0, s.len, hit);
            (r == None <==> LateHit(xs, hit)) &&
            (r.Some? ==> Fits(r.value) && Content(r.value) == Kept(xs, hit)) &&
            (r.Some? && Content(r.value) == Filter(xs, hit) <==> !LateHit(xs, hit) && !Adjacent(xs, hit))
  {
    var xs := Content(s);
    assert Shifted(s, 0, xs, 0);
    KeptExact(xs, hit);
    if LateHit(xs, hit) {
      DeletePanics(s, 0, xs, 0, hit);
    } else {
      DeleteKeeps(s, 0, xs, 0, hit);
      assert xs[0..] == xs && s.slots[..0] + Kept(xs, hit) == Kept(xs, hit);
    }
  }

  /** At most one element is a hit, as with unique keys: the loop is a filter. */
  lemma DeleteUnique<T>(s: Slice<T>, hit: T -> bool)
    requires Fits(s)
    requires forall i, j :: 0 <= i < j < s.len ==> !(hit(s.slots[i]) && hit(s.slots[j]))
    ensures var r := Delete(s, 0, s.len, hit);
            r.Some? && Fits(r.value) && Content(r.value) == Filter(Content(s), hit)
  {
    DeleteExact(s, hit);
  }

  /** The loop never changes the size of the backing array. */
  lemma {:induction false} DeleteSameArray<T>(s: Slice<T>, i: nat, n: nat, hit: T -> bool)
    requires Fits(s) && i <= n <= |s.slots|
    ensures var r := Delete(s, i, n, hit); r.Some? ==> |r.value.slots| == |s.slots| && r.value.len <= s.len
    decreases n - i
  {
    if i < n {
      if !hit(s.slots[i]) {
        DeleteSameArray(s, i + 1, n, hit);
      } else if Cut(s, i).Some? {
        DeleteSameArray(Cut(s, i).value, i + 1, n, hit);
      }
    }
  }

  ghost predicate Distinct<T>(xs: seq<T>) {
    forall i, j :: 0 <= i < j < |xs| ==> xs[i] != xs[j]
  }

  lemma DistinctCons<T>(x: T, rest: seq<T>)
    requires Distinct(rest) && forall j :: 0 <= j < |rest| ==> rest[j] != x
    ensures Distinct([x] + rest)
  {
  }

  /** Filtering keeps exactly the other elements, and keeps them apart. */
  lemma {:induction false} FilterExact<T>(xs: seq<T>, hit: T -> bool)
    ensures forall x {:trigger x in Filter(xs, hit)} :: x in Filter(xs, hit) ==> x in xs && !hit(x)
    ensures forall x {:trigger x in Filter(xs, hit)} {:trigger x in xs} :: x in xs && !hit(x) ==> x in Filter(xs, hit)
    ensures Distinct(xs) ==> Distinct(Filter(xs, hit))
  {
    if xs != [] {
      var rest := Filter(xs[1..], hit);
      FilterExact(xs[1..], hit);
      assert forall x :: x in xs <==> x == xs[0] || x in xs[1..];
      if Distinct(xs) && !hit(xs[0]) {
        forall j | 0 <= j < |rest|
          ensures rest[j] != xs[0]
        {
          assert rest[j] in rest;
          assert rest[j] in xs[1..];
          var i :| 0 <= i < |xs[1..]| && xs[1..][i] == rest[j];
          assert xs[i + 1] == rest[j];
        }
        DistinctCons(xs[0], rest);
      }
    }
  }
}
