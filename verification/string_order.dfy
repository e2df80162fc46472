/** The ordering Python uses for `str` values (code point by code point, a
    proper prefix before its extensions), and the sorted list of distinct
    values that `sorted(set(xs))` produces under it. */
module StringOrder {

  /** `a < b` on Python strings. */
  predicate Less(a: string, b: string)
    decreases |a|
  {
    if |a| == 0 then |b| > 0
    else if |b| == 0 then false
    else if a[0] != b[0] then a[0] < b[0]
    else Less(a[1..], b[1..])
  }

  lemma {:induction false} LessIrreflexive(a: string)
    ensures !Less(a, a)
    decreases |a|
  {
    if |a| > 0 {
      LessIrreflexive(a[1..]);
    }
  }

  lemma {:induction false} LessTransitive(a: string, b: string, c: string)
    requires Less(a, b) && Less(b, c)
    ensures Less(a, c)
    decreases |a|
  {
    if |a| > 0 && |b| > 0 && |c| > 0 && a[0] == b[0] && b[0] == c[0] {
      LessTransitive(a[1..], b[1..], c[1..]);
    }
  }

  /** Any two different strings are ordered one way or the other. */
  lemma {:induction false} LessTotal(a: string, b: string)
    requires a != b
    ensures Less(a, b) || Less(b, a)
    decreases |a|
  {
    if |a| > 0 && |b| > 0 && a[0] == b[0] {
      assert a == [a[0]] + a[1..] && b == [b[0]] + b[1..];
      LessTotal(a[1..], b[1..]);
    }
  }

  /** Every earlier element is strictly below every later one. */
  predicate StrictlyAscending(xs: seq<string>)
  {
    forall i, j | 0 <= i < j < |xs| :: Less(xs[i], xs[j])
  }

  /** A strictly ascending list holds no value twice. */
  lemma AscendingIsDistinct(xs: seq<string>)
    requires StrictlyAscending(xs)
    ensures forall i, j | 0 <= i < |xs| && 0 <= j < |xs| && i != j :: xs[i] != xs[j]
  {
    forall i, j | 0 <= i < |xs| && 0 <= j < |xs| && i != j
      ensures xs[i] != xs[j]
    {
      if i < j {
        LessIrreflexive(xs[i]);
      } else {
        LessIrreflexive(xs[j]);
      }
    }
  }

  /** Putting `h` in front of an ascending list keeps it ascending when `h`
      is below everything in it. */
  lemma PrependAscending(h: string, t: seq<string>)
    requires StrictlyAscending(t)
    requires forall x | x in t :: Less(h, x)
    ensures StrictlyAscending([h] + t)
  {
  }

  /** Adds `v` to an ascending list of distinct values at its place,
      unless it is already there. */
  function Insert(v: string, xs: seq<string>): (r: seq<string>)
    requires StrictlyAscending(xs)
    ensures StrictlyAscending(r)
    ensures forall x :: x in r <==> x == v || x in xs
  {
    if |xs| == 0 then [v]
    else if v == xs[0] then xs
    else if Less(v, xs[0]) then
      InsertFront(v, xs);
      [v] + xs
    else
      var rest := Insert(v, xs[1..]);
      InsertBehind(v, xs, rest);
      [xs[0]] + rest
  }

  lemma InsertFront(v: string, xs: seq<string>)
    requires StrictlyAscending(xs) && |xs| > 0 && Less(v, xs[0])
    ensures StrictlyAscending([v] + xs)
  {
    forall x | x in xs
      ensures Less(v, x)
    {
      if x != xs[0] {
        LessTransitive(v, xs[0], x);
      }
    }
    PrependAscending(v, xs);
  }

  lemma InsertBehind(v: string, xs: seq<string>, rest: seq<string>)
    requires StrictlyAscending(xs) && |xs| > 0 && v != xs[0] && !Less(v, xs[0])
    requires StrictlyAscending(rest)
    requires forall x :: x in rest <==> x == v || x in xs[1..]
    ensures StrictlyAscending([xs[0]] + rest)
  {
    LessTotal(v, xs[0]);
    forall x | x in rest
      ensures Less(xs[0], x)
    {
      if x != v {
        var k :| 0 <= k < |xs[1..]| && xs[1..][k] == x;
        assert xs[k + 1] == x;
      }
    }
    PrependAscending(xs[0], rest);
  }

  /** `sorted(set(values))`: each value once, in ascending order. */
  function SortedDistinct(values: seq<string>): (r: seq<string>)
    ensures StrictlyAscending(r)
    ensures forall x :: x in r <==> x in values
  {
    if |values| == 0 then []
    else
      var rest := SortedDistinct(values[1..]);
      assert forall x :: x in values <==> x == values[0] || x in values[1..] by {
        assert values == [values[0]] + values[1..];
      }
      Insert(values[0], rest)
  }

  /** A set of strings has exactly one strictly ascending listing, so the
      sorted option list is fixed by which values occur and by nothing else. */
  lemma {:induction false} AscendingListingUnique(a: seq<string>, b: seq<string>)
    requires StrictlyAscending(a) && StrictlyAscending(b)
    requires forall x :: x in a <==> x in b
    ensures a == b
    decreases |a|
  {
    assert |a| > 0 ==> a[0] in b;
    assert |b| > 0 ==> b[0] in a;
    if |a| > 0 {
      if a[0] != b[0] {
        assert a[0] in b;
        assert b[0] in a;
        var i :| 0 <= i < |a| && a[i] == b[0];
        var j :| 0 <= j < |b| && b[j] == a[0];
        assert i > 0 && j > 0;
        assert Less(a[0], b[0]) && Less(b[0], a[0]);
        LessTransitive(a[0], b[0], a[0]);
        LessIrreflexive(a[0]);
        assert false;
      }
      AscendingIsDistinct(a);
      AscendingIsDistinct(b);
      forall x
        ensures x in a[1..] <==> x in b[1..]
      {
        if x in a[1..] {
          var i :| 0 <= i < |a[1..]| && a[1..][i] == x;
          assert a[i + 1] == x && x != a[0] && x in a;
          var j :| 0 <= j < |b| && b[j] == x;
          assert j != 0 && b[1..][j - 1] == x;
        }
        if x in b[1..] {
          var j :| 0 <= j < |b[1..]| && b[1..][j] == x;
          assert b[j + 1] == x && x != b[0] && x in b;
          var i :| 0 <= i < |a| && a[i] == x;
          assert i != 0 && a[1..][i - 1] == x;
        }
      }
      AscendingListingUnique(a[1..], b[1..]);
      assert a == [a[0]] + a[1..] && b == [b[0]] + b[1..];
    }
  }
}
