/** `sorted(range(len(time_list)), key=lambda k: time_list[k])`: the order in
    which the rows are visited, a stable sort of the row indices by capture time. */
module Ordering {
  import opened Timestamps

  /** Row `i` is visited before row `j`: it was taken earlier, or at the same
      time and it comes first in exiftool's output (Python's sort is stable). */
  predicate Before(ts: seq<Timestamp>, i: nat, j: nat)
    requires i < |ts| && j < |ts|
  {
    TimeLess(ts[i], ts[j]) || (ts[i] == ts[j] && i < j)
  }

  /** `Before` is a strict total order on the row indices. */
  lemma BeforeOrder(ts: seq<Timestamp>, i: nat, j: nat, k: nat)
    requires i < |ts| && j < |ts| && k < |ts|
    ensures !Before(ts, i, i)
    ensures Before(ts, i, j) ==> !Before(ts, j, i)
    ensures Before(ts, i, j) && Before(ts, j, k) ==> Before(ts, i, k)
    ensures i == j || Before(ts, i, j) || Before(ts, j, i)
  {
    TimeLessOrder(ts[i], ts[j], ts[k]);
    TimeLessOrder(ts[j], ts[i], ts[k]);
  }

  predicate InBounds(ts: seq<Timestamp>, s: seq<nat>)
  {
    forall k :: 0 <= k < |s| ==> s[k] < |ts|
  }

  /** Every earlier position holds a row that is visited before every later one:
      capture times never decrease, and rows with one time keep their input order. */
  predicate StablySorted(ts: seq<Timestamp>, s: seq<nat>)
    requires InBounds(ts, s)
  {
    forall p, q :: 0 <= p < q < |s| ==> Before(ts, s[p], s[q])
  }

  /** `range(n)` as a list. */
  function Range(n: nat): (r: seq<nat>)
    ensures |r| == n
  {
    if n == 0 then [] else Range(n - 1) + [n - 1]
  }

  /** `s` lists every index below `n` exactly once and nothing else. */
  predicate IsPermutation(s: seq<nat>, n: nat)
  {
    multiset(s) == multiset(Range(n))
  }

  /** What being a permutation of `range(n)` means, element by element. */
  lemma {:induction false} PermutationOfRange(s: seq<nat>, n: nat)
    requires IsPermutation(s, n)
    ensures |s| == n
    ensures forall k :: 0 <= k < |s| ==> s[k] < n
    ensures forall i :: 0 <= i < n ==> multiset(s)[i] == 1
  {
    RangeCount(n);
    assert |s| == |multiset(s)| == |multiset(Range(n))| == n;
    forall k | 0 <= k < |s| ensures s[k] < n {
      assert s[k] in multiset(s);
    }
  }

  /** `range(n)` holds each index below `n` once and nothing else. */
  lemma RangeCount(n: nat)
    ensures forall i: nat :: multiset(Range(n))[i] == if i < n then 1 else 0
  {
    forall i: nat ensures multiset(Range(n))[i] == if i < n then 1 else 0 {
      RangeCountAt(n, i);
    }
  }

  lemma {:induction false} RangeCountAt(n: nat, i: nat)
    ensures multiset(Range(n))[i] == if i < n then 1 else 0
  {
    if n == 0 {
      assert Range(n) == [];
    } else {
      var prev: seq<nat>, last: nat := Range(n - 1), n - 1;
      RangeCountAt(last, i);
      assert Range(n) == prev + [last];
      var before, step := multiset(prev)[i], multiset([last])[i];
      assert multiset(Range(n))[i] == before + step;
      if i == last {
        assert step == 1 && before == 0;
      } else {
        assert step == 0;
      }
    }
  }

  /** Places row `x` among the already ordered rows `s`, ahead of the first
      row it is visited before. */
  function Insert(ts: seq<Timestamp>, x: nat, s: seq<nat>): (r: seq<nat>)
    requires x < |ts| && InBounds(ts, s) && StablySorted(ts, s) && x !in s
    ensures InBounds(ts, r) && StablySorted(ts, r)
    ensures multiset(r) == multiset(s) + multiset{x}
  {
    if |s| == 0 then [x]
    else if Before(ts, x, s[0]) then
      InsertFront(ts, x, s);
      [x] + s
    else
      assert s == [s[0]] + s[1..];
      var rest := Insert(ts, x, s[1..]);
      InsertBehind(ts, x, s, rest);
      [s[0]] + rest
  }

  lemma InsertFront(ts: seq<Timestamp>, x: nat, s: seq<nat>)
    requires x < |ts| && InBounds(ts, s) && StablySorted(ts, s)
    requires |s| > 0 && Before(ts, x, s[0])
    ensures InBounds(ts, [x] + s) && StablySorted(ts, [x] + s)
  {
    var r := [x] + s;
    forall p, q | 0 <= p < q < |r| ensures Before(ts, r[p], r[q]) {
      if p == 0 && q > 1 {
        BeforeOrder(ts, x, s[0], s[q - 1]);
      }
    }
  }

  lemma InsertBehind(ts: seq<Timestamp>, x: nat, s: seq<nat>, rest: seq<nat>)
    requires x < |ts| && InBounds(ts, s) && StablySorted(ts, s) && x !in s
    requires |s| > 0 && !Before(ts, x, s[0])
    requires InBounds(ts, rest) && StablySorted(ts, rest)
    requires multiset(rest) == multiset(s[1..]) + multiset{x}
    ensures InBounds(ts, [s[0]] + rest) && StablySorted(ts, [s[0]] + rest)
  {
    var r := [s[0]] + rest;
    BeforeOrder(ts, x, s[0], x);
    forall q | 0 < q < |r| ensures Before(ts, s[0], r[q]) {
      assert r[q] in multiset(rest);
      if r[q] != x {
        assert r[q] in multiset(s[1..]);
        var j :| 0 <= j < |s[1..]| && s[1..][j] == r[q];
        assert s[j + 1] == r[q];
      }
    }
  }

  /** `sorted(range(n), key=lambda k: ts[k])` for the first `n` rows, by insertion. */
  function SortIndices(ts: seq<Timestamp>, n: nat): (r: seq<nat>)
    requires n <= |ts|
    ensures InBounds(ts, r) && StablySorted(ts, r)
    ensures IsPermutation(r, n)
  {
    if n == 0 then []
    else
      var s := SortIndices(ts, n - 1);
      assert n - 1 !in s by {
        RangeCount(n - 1);
        assert n - 1 !in multiset(s);
      }
      Insert(ts, n - 1, s)
  }

  /** A stable sort has exactly one possible outcome: any two stably sorted
      permutations of the same rows coincide, so `SortIndices` gives the order
      Python's `sorted` produces, whatever algorithm it uses. */
  lemma {:induction false} StableOrderUnique(ts: seq<Timestamp>, a: seq<nat>, b: seq<nat>)
    requires InBounds(ts, a) && StablySorted(ts, a)
    requires InBounds(ts, b) && StablySorted(ts, b)
    requires multiset(a) == multiset(b)
    ensures a == b
    decreases |a|
  {
    if |a| == 0 {
      assert |b| == |multiset(b)| == 0;
    } else {
      SameFirst(ts, a, b);
      var a', b' := a[1..], b[1..];
      SortedTail(ts, a);
      SortedTail(ts, b);
      assert multiset(a') == multiset(b') by {
        assert a == [a[0]] + a' && b == [b[0]] + b';
        assert multiset(a) == multiset{a[0]} + multiset(a');
        assert multiset(b) == multiset{b[0]} + multiset(b');
        forall e ensures multiset(a')[e] == multiset(b')[e] {
          assert multiset(a)[e] == multiset{a[0]}[e] + multiset(a')[e];
          assert multiset(b)[e] == multiset{b[0]}[e] + multiset(b')[e];
        }
      }
      StableOrderUnique(ts, a', b');
    }
  }

  lemma SortedTail(ts: seq<Timestamp>, s: seq<nat>)
    requires InBounds(ts, s) && StablySorted(ts, s) && |s| > 0
    ensures InBounds(ts, s[1..]) && StablySorted(ts, s[1..])
  {
    forall p, q | 0 <= p < q < |s| - 1 ensures Before(ts, s[1..][p], s[1..][q]) {
      assert s[1..][p] == s[p + 1] && s[1..][q] == s[q + 1];
    }
  }

  /** Two stably sorted lists of the same rows start with the same row. */
  lemma SameFirst(ts: seq<Timestamp>, a: seq<nat>, b: seq<nat>)
    requires InBounds(ts, a) && StablySorted(ts, a)
    requires InBounds(ts, b) && StablySorted(ts, b)
    requires multiset(a) == multiset(b) && |a| > 0
    ensures |b| > 0 && a[0] == b[0]
  {
    assert a[0] in multiset(b);
    var j :| 0 <= j < |b| && b[j] == a[0];
    assert b[0] in multiset(a);
    var i :| 0 <= i < |a| && a[i] == b[0];
    BeforeOrder(ts, a[0], b[0], a[0]);
  }
}
