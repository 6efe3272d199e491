/** The order Python's `list.sort` uses on the key lists built by the editor and
    by the translation aggregator: strings compare by code point, integers
    numerically, and lists lexicographically with a proper prefix first. */
module Ordering {

  /** One component of a sort key: a (lower-cased) name or a position in a colour/icon order. */
  datatype Atom = Num(n: int) | Text(t: string)

  /** Python's `<` on `str`. */
  predicate StrLess(a: string, b: string)
    decreases |a|
  {
    |b| > 0 && (|a| == 0 || a[0] < b[0] || (a[0] == b[0] && StrLess(a[1..], b[1..])))
  }

  /** Python's `<` on two key components. A number and a string never meet at the
      same key position; ordering numbers first only makes the relation total. */
  predicate AtomLess(x: Atom, y: Atom) {
    match (x, y)
    case (Num(m), Num(n)) => m < n
    case (Text(s), Text(t)) => StrLess(s, t)
    case (Num(_), Text(_)) => true
    case (Text(_), Num(_)) => false
  }

  /** Python's `<` on lists of key components. */
  predicate VecLess(u: seq<Atom>, v: seq<Atom>)
    decreases |u|
  {
    |v| > 0 && (|u| == 0 || AtomLess(u[0], v[0]) || (u[0] == v[0] && VecLess(u[1..], v[1..])))
  }

  lemma {:induction false} StrLessIrreflexive(a: string)
    ensures !StrLess(a, a)
    decreases |a|
  {
    if |a| > 0 {
      StrLessIrreflexive(a[1..]);
    }
  }

  lemma {:induction false} StrLessTransitive(a: string, b: string, c: string)
    requires StrLess(a, b) && StrLess(b, c)
    ensures StrLess(a, c)
    decreases |a|
  {
    if |a| > 0 && a[0] == b[0] && b[0] == c[0] {
      StrLessTransitive(a[1..], b[1..], c[1..]);
    }
  }

  lemma {:induction false} StrLessTotal(a: string, b: string)
    requires a != b
    ensures StrLess(a, b) || StrLess(b, a)
    decreases |a|
  {
    if |a| > 0 && |b| > 0 && a[0] == b[0] {
      assert a == [a[0]] + a[1..] && b == [b[0]] + b[1..];
      StrLessTotal(a[1..], b[1..]);
    }
  }

  /** Two strings neither of which is less than the other are equal. */
  lemma StrLessAntisymmetric(a: string, b: string)
    requires !StrLess(a, b) && !StrLess(b, a)
    ensures a == b
  {
    if a != b {
      StrLessTotal(a, b);
    }
  }

  lemma AtomLessIrreflexive(x: Atom)
    ensures !AtomLess(x, x)
  {
    if x.Text? {
      StrLessIrreflexive(x.t);
    }
  }

  lemma AtomLessTransitive(x: Atom, y: Atom, z: Atom)
    requires AtomLess(x, y) && AtomLess(y, z)
    ensures AtomLess(x, z)
  {
    if x.Text? && y.Text? && z.Text? {
      StrLessTransitive(x.t, y.t, z.t);
    }
  }

  lemma AtomLessTotal(x: Atom, y: Atom)
    requires x != y
    ensures AtomLess(x, y) || AtomLess(y, x)
  {
    if x.Text? && y.Text? {
      StrLessTotal(x.t, y.t);
    }
  }

  lemma {:induction false} VecLessIrreflexive(u: seq<Atom>)
    ensures !VecLess(u, u)
    decreases |u|
  {
    if |u| > 0 {
      AtomLessIrreflexive(u[0]);
      VecLessIrreflexive(u[1..]);
    }
  }

  lemma {:induction false} VecLessTransitive(u: seq<Atom>, v: seq<Atom>, w: seq<Atom>)
    requires VecLess(u, v) && VecLess(v, w)
    ensures VecLess(u, w)
    decreases |u|
  {
    if |u| > 0 {
      if AtomLess(u[0], v[0]) && AtomLess(v[0], w[0]) {
        AtomLessTransitive(u[0], v[0], w[0]);
      } else if u[0] == v[0] && v[0] == w[0] {
        VecLessTransitive(u[1..], v[1..], w[1..]);
      }
    }
  }

  lemma {:induction false} VecLessTotal(u: seq<Atom>, v: seq<Atom>)
    requires u != v
    ensures VecLess(u, v) || VecLess(v, u)
    decreases |u|
  {
    if |u| > 0 && |v| > 0 {
      if u[0] == v[0] {
        assert u == [u[0]] + u[1..] && v == [v[0]] + v[1..];
        VecLessTotal(u[1..], v[1..]);
      } else {
        AtomLessTotal(u[0], v[0]);
      }
    }
  }

  /** VecLess is a strict total order, so "not less" is transitive. */
  lemma VecNotLessTransitive(u: seq<Atom>, v: seq<Atom>, w: seq<Atom>)
    requires !VecLess(u, v) && !VecLess(v, w)
    ensures !VecLess(u, w)
  {
    if VecLess(u, w) {
      assert u != v;
      VecLessTotal(u, v);
      if v != w {
        VecLessTotal(v, w);
        VecLessTransitive(w, v, u);
      }
      VecLessAsymmetric(u, w);
    }
  }

  lemma VecLessAsymmetric(u: seq<Atom>, v: seq<Atom>)
    requires VecLess(u, v)
    ensures !VecLess(v, u)
  {
    if VecLess(v, u) {
      VecLessTransitive(u, v, u);
      VecLessIrreflexive(u);
    }
  }
}
