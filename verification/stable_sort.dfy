/** Python's `list.sort(key=..., reverse=...)`: a stable sort by a key list,
    descending when `reverse` is set, with equal-key elements kept in their
    original order in both directions. Modelled as an insertion sort. */
module StableSort {
  import opened Ordering

  /** `x` must come strictly before `y` in the sorted output. */
  predicate Before<T>(key: T -> seq<Atom>, desc: bool, x: T, y: T) {
    if desc then VecLess(key(y), key(x)) else VecLess(key(x), key(y))
  }

  predicate Sorted<T>(s: seq<T>, key: T -> seq<Atom>, desc: bool) {
    forall i, j :: 0 <= i < j < |s| ==> !Before(key, desc, s[j], s[i])
  }

  /** `[x]` when `x` has key `k`, otherwise nothing. */
  function Pick<T>(x: T, key: T -> seq<Atom>, k: seq<Atom>): seq<T> {
    if key(x) == k then [x] else []
  }

  /** The elements of `s` whose key is `k`, in their order in `s`. */
  function WithKey<T>(s: seq<T>, key: T -> seq<Atom>, k: seq<Atom>): seq<T>
  {
    if |s| == 0 then [] else Pick(s[0], key, k) + WithKey(s[1..], key, k)
  }

  /** Inserts `x` in front of the first element that does not have to precede it. */
  function Insert<T>(x: T, t: seq<T>, key: T -> seq<Atom>, desc: bool): (r: seq<T>)
    ensures multiset(r) == multiset(t) + multiset{x}
  {
    if |t| == 0 then [x]
    else if Before(key, desc, t[0], x) then
      assert t == [t[0]] + t[1..];
      [t[0]] + Insert(x, t[1..], key, desc)
    else [x] + t
  }

  function SortBy<T>(s: seq<T>, key: T -> seq<Atom>, desc: bool): (r: seq<T>)
    ensures multiset(r) == multiset(s)
    ensures |r| == |s|
  {
    if |s| == 0 then []
    else
      assert s == [s[0]] + s[1..];
      Insert(s[0], SortBy(s[1..], key, desc), key, desc)
  }

  lemma BeforeAsymmetric<T>(key: T -> seq<Atom>, desc: bool, x: T, y: T)
    requires Before(key, desc, x, y)
    ensures !Before(key, desc, y, x)
  {
    if desc {
      VecLessAsymmetric(key(y), key(x));
    } else {
      VecLessAsymmetric(key(x), key(y));
    }
  }

  lemma NotBeforeTransitive<T>(key: T -> seq<Atom>, desc: bool, x: T, y: T, z: T)
    requires !Before(key, desc, x, y) && !Before(key, desc, y, z)
    ensures !Before(key, desc, x, z)
  {
    if desc {
      VecNotLessTransitive(key(z), key(y), key(x));
    } else {
      VecNotLessTransitive(key(x), key(y), key(z));
    }
  }

  lemma {:induction false} InsertSorted<T>(x: T, t: seq<T>, key: T -> seq<Atom>, desc: bool)
    requires Sorted(t, key, desc)
    ensures Sorted(Insert(x, t, key, desc), key, desc)
    decreases |t|
  {
    var r := Insert(x, t, key, desc);
    if |t| == 0 {
    } else if Before(key, desc, t[0], x) {
      var rest := Insert(x, t[1..], key, desc);
      InsertSorted(x, t[1..], key, desc);
      BeforeAsymmetric(key, desc, t[0], x);
      forall j | 0 < j < |r|
        ensures !Before(key, desc, r[j], t[0])
      {
        assert r[j] in multiset(rest);
        var k :| 0 <= k < |t| && (r[j] == x || r[j] == t[k]);
        if r[j] != x {
          var m :| 1 <= m < |t| && r[j] == t[m];
        }
      }
    } else {
      forall j | 0 <= j < |t|
        ensures !Before(key, desc, t[j], x)
      {
        if j > 0 {
          NotBeforeTransitive(key, desc, t[j], t[0], x);
        }
      }
    }
  }

  lemma {:induction false} SortBySorted<T>(s: seq<T>, key: T -> seq<Atom>, desc: bool)
    ensures Sorted(SortBy(s, key, desc), key, desc)
    decreases |s|
  {
    if |s| > 0 {
      SortBySorted(s[1..], key, desc);
      InsertSorted(s[0], SortBy(s[1..], key, desc), key, desc);
    }
  }

  lemma WithKeyCons<T>(x: T, t: seq<T>, key: T -> seq<Atom>, k: seq<Atom>)
    ensures WithKey([x] + t, key, k) == Pick(x, key, k) + WithKey(t, key, k)
  {
    assert ([x] + t)[1..] == t;
  }

  lemma BeforeKeysDiffer<T>(key: T -> seq<Atom>, desc: bool, x: T, y: T)
    requires Before(key, desc, x, y)
    ensures key(x) != key(y)
  {
    if key(x) == key(y) {
      VecLessIrreflexive(key(x));
    }
  }

  lemma {:induction false} InsertWithKey<T>(x: T, t: seq<T>, key: T -> seq<Atom>, desc: bool, k: seq<Atom>)
    ensures WithKey(Insert(x, t, key, desc), key, k) == Pick(x, key, k) + WithKey(t, key, k)
    decreases |t|
  {
    if |t| == 0 {
      WithKeyCons(x, t, key, k);
    } else if Before(key, desc, t[0], x) {
      var rest := Insert(x, t[1..], key, desc);
      assert Insert(x, t, key, desc) == [t[0]] + rest;
      InsertWithKey(x, t[1..], key, desc, k);
      BeforeKeysDiffer(key, desc, t[0], x);
      PassOver(x, t, rest, key, k);
    } else {
      WithKeyCons(x, t, key, k);
    }
  }

  /** The step of InsertWithKey where `x` passes over `t[0]`. */
  lemma PassOver<T>(x: T, t: seq<T>, rest: seq<T>, key: T -> seq<Atom>, k: seq<Atom>)
    requires |t| > 0 && key(t[0]) != key(x)
    requires WithKey(rest, key, k) == Pick(x, key, k) + WithKey(t[1..], key, k)
    ensures WithKey([t[0]] + rest, key, k) == Pick(x, key, k) + WithKey(t, key, k)
  {
    WithKeyCons(t[0], rest, key, k);
    WithKeyCons(t[0], t[1..], key, k);
    assert t == [t[0]] + t[1..];
    if key(x) == k {
      assert Pick(t[0], key, k) == [];
      assert WithKey([t[0]] + rest, key, k) == WithKey(rest, key, k);
      assert WithKey(t, key, k) == WithKey(t[1..], key, k);
    } else {
      assert Pick(x, key, k) == [];
      assert WithKey(rest, key, k) == WithKey(t[1..], key, k);
    }
  }

  /** Stability: the elements sharing one key keep their relative order. */
  lemma {:induction false} SortByStable<T>(s: seq<T>, key: T -> seq<Atom>, desc: bool, k: seq<Atom>)
    ensures WithKey(SortBy(s, key, desc), key, k) == WithKey(s, key, k)
    decreases |s|
  {
    if |s| > 0 {
      SortByStable(s[1..], key, desc, k);
      InsertWithKey(s[0], SortBy(s[1..], key, desc), key, desc, k);
    }
  }
}
