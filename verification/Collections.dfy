/** Facts about maps and about the order in which a std::map is iterated. */
module Collections {

  lemma SubsetOfEqualSize<T>(a: set<T>, b: set<T>)
    requires a <= b && |a| == |b|
    ensures a == b
  {
    if x :| x in b && x !in a {
      SubsetSize(a, b - {x});
    }
  }

  lemma {:induction false} SubsetSize<T>(a: set<T>, b: set<T>)
    requires a <= b
    ensures |a| <= |b|
  {
    if a != {} {
      var x :| x in a;
      SubsetSize(a - {x}, b - {x});
    }
  }

  /** One map agrees with another on its own keys; this is what a one-directional loop compares. */
  predicate Agrees<K, V(==)>(a: map<K, V>, b: map<K, V>) {
    forall k :: k in a ==> k in b && a[k] == b[k]
  }

  /** For maps of equal size the one-directional comparison decides equality. */
  lemma AgreementIsEquality<K, V>(a: map<K, V>, b: map<K, V>)
    ensures |a| == |b| && Agrees(a, b) <==> a == b
  {
    if |a| == |b| && Agrees(a, b) {
      assert |a.Keys| == |b.Keys|;
      SubsetOfEqualSize(a.Keys, b.Keys);
    }
  }

  /** The comparison of two maps by a loop over the first, for values that have an equality of their own. */
  predicate Matches<K, V>(equal: (V, V) -> bool, a: map<K, V>, b: map<K, V>) {
    |a| == |b| && forall k :: k in a ==> k in b && equal(a[k], b[k])
  }

  ghost predicate IsEquivalence<V(!new)>(equal: (V, V) -> bool) {
    && (forall x :: equal(x, x))
    && (forall x, y :: equal(x, y) ==> equal(y, x))
    && (forall x, y, z :: equal(x, y) && equal(y, z) ==> equal(x, z))
  }

  lemma MatchingKeys<K, V>(equal: (V, V) -> bool, a: map<K, V>, b: map<K, V>)
    requires Matches(equal, a, b)
    ensures a.Keys == b.Keys
  {
    assert |a.Keys| == |b.Keys|;
    SubsetOfEqualSize(a.Keys, b.Keys);
  }

  /** The one-directional comparison is an equivalence relation whenever the equality of the values is one. */
  lemma MatchingIsEquivalence<K, V(!new)>(equal: (V, V) -> bool, a: map<K, V>, b: map<K, V>, c: map<K, V>)
    requires IsEquivalence(equal)
    ensures Matches(equal, a, a)
    ensures Matches(equal, a, b) ==> Matches(equal, b, a)
    ensures Matches(equal, a, b) && Matches(equal, b, c) ==> Matches(equal, a, c)
  {
    if Matches(equal, a, b) {
      MatchingKeys(equal, a, b);
      forall k | k in b ensures k in a && equal(b[k], a[k]) {
        assert equal(a[k], b[k]);
      }
      if Matches(equal, b, c) {
        forall k | k in a ensures k in c && equal(a[k], c[k]) {
          assert equal(a[k], b[k]) && equal(b[k], c[k]);
        }
      }
    }
  }

  // Permutations

  function Without<T>(s: seq<T>, k: nat): seq<T>
    requires k < |s|
  {
    s[..k] + s[k + 1..]
  }

  lemma WithoutOne<T>(s: seq<T>, k: nat)
    requires k < |s|
    ensures multiset(Without(s, k)) == multiset(s) - multiset{s[k]}
  {
    assert s == s[..k] + [s[k]] + s[k + 1..];
    assert multiset(s) == multiset(s[..k]) + multiset{s[k]} + multiset(s[k + 1..]);
  }

  /** The place of the first element of a sequence in a permutation of it. */
  lemma FirstIn<T>(a: seq<T>, b: seq<T>) returns (k: nat)
    requires a != [] && multiset(a) == multiset(b)
    ensures k < |b| && b[k] == a[0] && multiset(a[1..]) == multiset(Without(b, k))
  {
    assert a[0] in multiset(b);
    k :| 0 <= k < |b| && b[k] == a[0];
    WithoutOne(a, 0);
    WithoutOne(b, k);
    assert Without(a, 0) == a[1..];
  }

  // Filters

  function Filter<T>(keep: T -> bool, s: seq<T>): seq<T> {
    if s == [] then [] else (if keep(s[0]) then [s[0]] else []) + Filter(keep, s[1..])
  }

  lemma {:induction false} FilterDrops<T>(keep: T -> bool, s: seq<T>, x: T)
    requires !keep(x)
    ensures Filter(keep, s + [x]) == Filter(keep, s)
  {
    var more := s + [x];
    if s != [] {
      assert more[0] == s[0] && more[1..] == s[1..] + [x];
      FilterDrops(keep, s[1..], x);
    } else {
      assert more[1..] == [];
    }
  }

  lemma {:induction false} FilterWithout<T>(keep: T -> bool, s: seq<T>, k: nat)
    requires k < |s|
    ensures |Filter(keep, s)| == |Filter(keep, Without(s, k))| + if keep(s[k]) then 1 else 0
    decreases k
  {
    var others := Without(s, k);
    if k == 0 {
      assert others == s[1..];
    } else {
      assert others[0] == s[0] && others[1..] == Without(s[1..], k - 1);
      FilterWithout(keep, s[1..], k - 1);
    }
  }

  lemma {:induction false} FilterPermutes<T>(keep: T -> bool, a: seq<T>, b: seq<T>)
    requires multiset(a) == multiset(b)
    ensures |Filter(keep, a)| == |Filter(keep, b)|
    decreases |a|
  {
    if a == [] {
      assert |multiset(b)| == 0;
    } else {
      var k := FirstIn(a, b);
      FilterPermutes(keep, a[1..], Without(b, k));
      FilterWithout(keep, b, k);
    }
  }

  /** Moving an element that is filtered out does not show. */
  lemma {:induction false} FilterMoves<T>(keep: T -> bool, s: seq<T>, k: nat)
    requires k < |s| && !keep(s[k])
    ensures Filter(keep, Without(s, k) + [s[k]]) == Filter(keep, s)
    decreases k
  {
    var moved := Without(s, k) + [s[k]];
    if k == 0 {
      assert moved == s[1..] + [s[0]];
      FilterDrops(keep, s[1..], s[0]);
    } else {
      assert moved[0] == s[0] && moved[1..] == Without(s[1..], k - 1) + [s[1..][k - 1]];
      FilterMoves(keep, s[1..], k - 1);
    }
  }

  // Ascending order

  predicate Ascends(s: seq<nat>) {
    forall i, j :: 0 <= i < j < |s| ==> s[i] < s[j]
  }

  lemma {:induction false} Greatest(s: set<nat>) returns (m: nat)
    requires s != {}
    ensures m in s && forall k :: k in s ==> k <= m
  {
    m :| m in s;
    var t := s - {m};
    assert forall k :: k in s ==> k == m || k in t;
    if t != {} {
      var n := Greatest(t);
      if m < n {
        m := n;
      }
    }
  }

  lemma HasLargest(s: set<nat>)
    requires s != {}
    ensures exists m :: m in s && forall k :: k in s ==> k <= m
  {
    var m := Greatest(s);
  }

  function Largest(s: set<nat>): (m: nat)
    requires s != {}
    ensures m in s && forall k :: k in s ==> k <= m
  {
    HasLargest(s);
    var m :| m in s && forall k :: k in s ==> k <= m;
    m
  }

  /** A sequence of the elements of a set from the smallest to the largest. */
  predicate IsOrder(s: set<nat>, r: seq<nat>) {
    && Ascends(r)
    && (forall i :: 0 <= i < |r| ==> r[i] in s)
    && (forall k :: k in s ==> k in r)
  }

  lemma {:induction false} HasOrder(s: set<nat>)
    ensures exists r :: IsOrder(s, r)
  {
    if s == {} {
      assert IsOrder(s, []);
    } else {
      var m := Largest(s);
      HasOrder(s - {m});
      var r :| IsOrder(s - {m}, r);
      assert forall k :: k in s ==> k == m || k in r;
      assert IsOrder(s, r + [m]);
    }
  }

  lemma OrderHasElement(s: set<nat>, r: seq<nat>)
    requires IsOrder(s, r) && r != []
    ensures s != {}
  {
    assert r[0] in s;
  }

  /** There is only one order of a set. */
  lemma {:induction false} OneOrder(s: set<nat>, r: seq<nat>, q: seq<nat>)
    requires IsOrder(s, r) && IsOrder(s, q)
    ensures r == q
  {
    if r != [] {
      assert r[0] in q;
      var m := r[|r| - 1];
      assert m in q && q[|q| - 1] in r;
      var i :| 0 <= i < |q| && q[i] == m;
      var j :| 0 <= j < |r| && r[j] == q[|q| - 1];
      assert q[|q| - 1] == m;
      forall k | k in s - {m} ensures k in r[..|r| - 1] && k in q[..|q| - 1] {
      }
      OneOrder(s - {m}, r[..|r| - 1], q[..|q| - 1]);
    } else if q != [] {
      OrderHasElement(s, q);
    }
  }

  lemma {:induction false} OrderSize(s: set<nat>, r: seq<nat>)
    requires IsOrder(s, r)
    ensures |r| == |s|
  {
    if r != [] {
      var m := r[|r| - 1];
      forall k | k in s - {m} ensures k in r[..|r| - 1] {
      }
      OrderSize(s - {m}, r[..|r| - 1]);
    } else {
      assert s == {};
    }
  }

  /** The keys of a std::map in the order of its iterator. */
  function Ascending(s: set<nat>): (r: seq<nat>)
    ensures IsOrder(s, r)
  {
    HasOrder(s);
    assert forall r, q :: IsOrder(s, r) && IsOrder(s, q) ==> r == q by {
      forall r, q | IsOrder(s, r) && IsOrder(s, q) ensures r == q {
        OneOrder(s, r, q);
      }
    }
    var r :| IsOrder(s, r);
    r
  }
}
